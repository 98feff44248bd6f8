/** The double-ended queue (libsrsbsns/deque.c) and the stack on top of it
    (libsrsbsns/stack.c).  The queue grows at both ends of one array; "front" is the
    upper end.  When it grows, the contents go off the middle by a truncated real offset,
    towards the end that has been pushed to more, so that less room is left there. */
module Deques {
  import opened Prelude

  // --- the biased offset ---

  /** How far pushes lean to the front, clamped to 0.9 either way. */
  function Bias(pfcnt: nat, pbcnt: nat, nelem: nat): (b: real)
    requires nelem > 0
    ensures -0.9 <= b <= 0.9
    ensures (pfcnt > pbcnt <==> b > 0.0) && (pfcnt < pbcnt <==> b < 0.0)
  {
    SignOfQuotient(2.0 * (pfcnt as real - pbcnt as real), nelem as real);
    var bias := 2.0 * (pfcnt as real - pbcnt as real) / nelem as real;
    if bias > 0.9 then 0.9 else if bias < -0.9 then -0.9 else bias
  }

  /** Half the spare room, enlarged or reduced by the bias, before it is cut down to a whole number. */
  function Lean(half: real, bias: real): (x: real)
    requires -0.9 <= bias <= 0.9 && half >= 0.0
    ensures 0.1 * half <= x <= 1.9 * half
  {
    NonNegative(0.9 - bias, half);
    NonNegative(bias + 0.9, half);
    half + bias * half
  }

  function Shifted(half: nat, bias: real): (r: nat)
    requires -0.9 <= bias <= 0.9
    ensures r <= 2 * half && (half > 0 ==> r < 2 * half) && (half >= 10 ==> r > 0)
  {
    var x := Lean(half as real, bias);
    FloorBetween(x, half);
    x.Floor
  }

  lemma FloorBetween(x: real, h: nat)
    requires 0.1 * h as real <= x <= 1.9 * h as real
    ensures 0 <= x.Floor <= 2 * h
    ensures h > 0 ==> x.Floor < 2 * h
    ensures h >= 10 ==> x.Floor > 0
  {
  }

  /** For every bias the contents fit behind the offset, with room left in front of them
      if there is any spare room at all; room behind them is only sure from 20 spare
      places on. */
  lemma OffsetBounds(spare: nat, bias: real)
    requires -0.9 <= bias <= 0.9
    ensures Shifted(spare / 2, bias) <= spare
    ensures spare > 0 ==> Shifted(spare / 2, bias) < spare
    ensures spare >= 20 ==> Shifted(spare / 2, bias) > 0
  {
    assert 2 * (spare / 2) <= spare;
  }

  /** Growing from nelem to size places leaves room behind count elements: in whole
      numbers, the condition that the truncated offset is not 0.  A lean of more than 0.9
      to the back takes 10 pairs of spare places, one to the front a single pair. */
  predicate RoomBehind(nelem: nat, size: nat, count: nat, pf: nat, pb: nat)
    requires nelem > 0 && count <= size
  {
    var half, d := (size - count) / 2, pf - pb;
    if 20 * d < -9 * nelem then half >= 10
    else if 20 * d > 9 * nelem then half >= 1
    else half * (nelem + 2 * d) >= nelem
  }

  lemma RoomBehindIff(nelem: nat, size: nat, count: nat, pf: nat, pb: nat)
    requires nelem > 0 && count <= size
    ensures RoomBehind(nelem, size, count, pf, pb) <==> Shifted((size - count) / 2, Bias(pf, pb, nelem)) > 0
  {
    var half, d := (size - count) / 2, pf - pb;
    BiasCases(pf, pb, nelem);
    if -9 * nelem <= 20 * d <= 9 * nelem {
      ShiftedIsSome(half, nelem, nelem + 2 * d, Bias(pf, pb, nelem));
    }
  }

  lemma BiasCases(pf: nat, pb: nat, nelem: nat)
    requires nelem > 0
    ensures var d, b := pf - pb, Bias(pf, pb, nelem);
            && (20 * d > 9 * nelem ==> b == 0.9)
            && (20 * d < -9 * nelem ==> b == -0.9)
            && (-9 * nelem <= 20 * d <= 9 * nelem ==> b * nelem as real == 2.0 * d as real)
  {
    var n, d := nelem as real, (pf - pb) as real;
    assert d == pf as real - pb as real;
    Quotient(2.0 * d, n);
    Beyond(2.0 * d / n, d, n);
    assert (20 * (pf - pb)) as real == 20.0 * d && (9 * nelem) as real == 9.0 * n;
  }

  lemma Beyond(b: real, d: real, n: real)
    requires n > 0.0 && b * n == 2.0 * d
    ensures b > 0.9 <==> 20.0 * d > 9.0 * n
    ensures b < -0.9 <==> 20.0 * d < -9.0 * n
  {
    Scaled(b, 0.9, n);
    Scaled(b, -0.9, n);
  }

  lemma ShiftedIsSome(half: nat, nelem: nat, m: nat, bias: real)
    requires nelem > 0 && -0.9 <= bias <= 0.9 && bias * nelem as real == m as real - nelem as real
    ensures Shifted(half, bias) > 0 <==> half * m >= nelem
  {
    var h, n := half as real, nelem as real;
    ShiftedFrom1(half, bias);
    Product(half, m);
    assert (h + bias * h) * n == (half * m) as real by { Spread(h, n, bias, m as real); }
    AtLeast1(h + bias * h, n, (half * m) as real);
  }

  lemma AtLeast1(x: real, n: real, y: real)
    requires n > 0.0 && x * n == y
    ensures x >= 1.0 <==> y >= n
  {
    Scaled(x, 1.0, n);
  }

  lemma ShiftedFrom1(half: nat, bias: real)
    requires -0.9 <= bias <= 0.9
    ensures Shifted(half, bias) > 0 <==> half as real + bias * half as real >= 1.0
  {
  }

  lemma Product(a: int, b: int)
    ensures (a * b) as real == a as real * b as real
  {
  }

  lemma Spread(h: real, n: real, b: real, m: real)
    requires b * n == m - n
    ensures (h + b * h) * n == h * m
  {
    assert (h + b * h) * n == h * n + h * (b * n);
  }

  lemma SignOfQuotient(a: real, n: real)
    requires n > 0.0
    ensures (a / n > 0.0 <==> a > 0.0) && (a / n < 0.0 <==> a < 0.0)
  {
    Quotient(a, n);
    Scaled(a / n, 0.0, n);
  }

  lemma Quotient(a: real, n: real)
    requires n > 0.0
    ensures (a / n) * n == a
  {
  }

  lemma Scaled(a: real, b: real, n: real)
    requires n > 0.0
    ensures a > b <==> a * n > b * n
    ensures a < b <==> a * n < b * n
  {
  }

  /** The more pushes lean to the front, the further to the front the contents go, and the
      less room is left in front of them. */
  lemma MorePushedMoreShifted(half: nat, nelem: nat, pf: nat, pb: nat, pf': nat, pb': nat)
    requires nelem > 0 && pf - pb <= pf' - pb'
    ensures Shifted(half, Bias(pf, pb, nelem)) <= Shifted(half, Bias(pf', pb', nelem))
  {
    var b, b', h := Bias(pf, pb, nelem), Bias(pf', pb', nelem), half as real;
    MorePushedMoreBias(nelem, pf, pb, pf', pb');
    NonNegative(b' - b, h);
    assert b' * h - b * h == (b' - b) * h;
  }

  lemma MorePushedMoreBias(nelem: nat, pf: nat, pb: nat, pf': nat, pb': nat)
    requires nelem > 0 && pf - pb <= pf' - pb'
    ensures Bias(pf, pb, nelem) <= Bias(pf', pb', nelem)
  {
    assert (pf - pb) as real <= (pf' - pb') as real;
    QuotientMono(2.0 * (pf as real - pb as real), 2.0 * (pf' as real - pb' as real), nelem as real);
  }

  lemma QuotientMono(a: real, b: real, n: real)
    requires n > 0.0 && a <= b
    ensures a / n <= b / n
  {
    Quotient(a, n);
    Quotient(b, n);
    Scaled(a / n, b / n, n);
  }

  /** The grow loop of a push to the back: the size it ends with, and where the contents
      start then. */
  function GrowBack(nelem: nat, count: nat, pf: nat, pb: nat): (r: (nat, nat))
    requires 0 < nelem && count <= nelem
    ensures r.0 == 2 * nelem || (nelem < 20 && r.0 <= 76)
    ensures r.0 > 0 && 0 < r.1 && r.1 + count < r.0
    decreases if nelem < 20 then 20 - nelem else 0
  {
    var at := Shifted((2 * nelem - count) / 2, Bias(pf, pb, nelem));
    if at > 0 then (2 * nelem, at) else GrowBack(2 * nelem, count, pf, pb)
  }

  /** One doubling is enough for a push to the back exactly when it leaves room behind. */
  lemma OneDoublingIff(nelem: nat, count: nat, pf: nat, pb: nat)
    requires 0 < nelem && count <= nelem
    ensures GrowBack(nelem, count, pf, pb).0 == 2 * nelem <==> RoomBehind(nelem, 2 * nelem, count, pf, pb)
  {
    RoomBehindIff(nelem, 2 * nelem, count, pf, pb);
    GrowBackGrows(2 * nelem, count, pf, pb);
  }

  lemma {:induction false} GrowBackGrows(nelem: nat, count: nat, pf: nat, pb: nat)
    requires 0 < nelem && count <= nelem
    ensures GrowBack(nelem, count, pf, pb).0 > nelem
    decreases if nelem < 20 then 20 - nelem else 0
  {
    if Shifted((2 * nelem - count) / 2, Bias(pf, pb, nelem)) == 0 {
      GrowBackGrows(2 * nelem, count, pf, pb);
    }
  }

  /** The factor times the count, cut down to a whole number. */
  function ScaledSize(countfac: real, n: nat): (r: nat)
    requires countfac >= 1.0
    ensures r >= n
  {
    NonNegative(countfac - 1.0, n as real);
    assert countfac * n as real == n as real + (countfac - 1.0) * n as real;
    (countfac * n as real).Floor
  }

  lemma NonNegative(a: real, b: real)
    requires a >= 0.0 && b >= 0.0
    ensures a * b >= 0.0
  {
  }

  ghost predicate AllSome<T>(s: seq<Option<T>>) {
    forall i :: 0 <= i < |s| ==> s[i].Some?
  }

  ghost function Values<T>(s: seq<Option<T>>): seq<T>
    requires AllSome(s)
  {
    seq(|s|, i requires 0 <= i < |s| => s[i].value)
  }

  class Deque<T> {
    var nelem: nat
    var data: array<Option<T>>
    var back: nat
    var front: nat
    var iter: nat
    var pfcnt: nat
    var pbcnt: nat

    ghost predicate Valid()
      reads this, data
    {
      && nelem == data.Length > 0
      && back <= front <= nelem
      && AllSome(data[back..front])
    }

    /** The elements from the back to the front. */
    ghost function Contents(): seq<T>
      requires Valid()
      reads this, data
    {
      Values(data[back..front])
    }

    constructor (initsize: nat)
      ensures Valid() && Contents() == [] && nelem == Max(initsize, 1) && fresh(data)
      ensures back == nelem / 2 && pfcnt == 0 && pbcnt == 0
    {
      var size := if initsize == 0 then 1 else initsize;
      data := new Option<T>[size];
      nelem := size;
      back, front := size / 2, size / 2;
      iter, pfcnt, pbcnt := 0, 0, 0;
    }

    method Clear()
      requires Valid()
      modifies this`back, this`front
      ensures Valid() && Contents() == []
    {
      back, front := nelem / 2, nelem / 2;
    }

    function Count(): (n: nat)
      requires Valid()
      reads this, data
      ensures n == |Contents()|
    {
      front - back
    }

    method Resize(newsz: nat) returns (ok: bool)
      requires Valid()
      modifies this`nelem, this`data, this`back, this`front
      ensures Valid() && Contents() == old(Contents())
      ensures ok <==> Max(newsz, 1) >= |old(Contents())|
      ensures ok ==> nelem == Max(newsz, 1) && fresh(data)
      ensures ok ==> back == Shifted((nelem - |Contents()|) / 2, Bias(pfcnt, pbcnt, old(nelem)))
      ensures ok ==> (back > 0 <==> RoomBehind(old(nelem), nelem, |Contents()|, pfcnt, pbcnt))
      ensures ok && nelem > |Contents()| ==> front < nelem
      ensures ok && nelem - |Contents()| >= 20 ==> back > 0
      ensures !ok ==> nelem == old(nelem) && data == old(data) && back == old(back) && front == old(front)
    {
      var size := if newsz == 0 then 1 else newsz;
      var count := Count();
      if size < count {
        return false;
      }
      var bias := Bias(pfcnt, pbcnt, nelem);
      var newback := (size - count) / 2;
      newback := Shifted(newback, bias);
      OffsetBounds(size - count, bias);
      RoomBehindIff(nelem, size, count, pfcnt, pbcnt);
      var newloc := Relocate(size, newback);
      data := newloc;
      back := newback;
      front := newback + count;
      nelem := size;
      ok := true;
    }

    /** malloc and memcpy: the contents at offset at of a new array. */
    method Relocate(size: nat, at: nat) returns (newloc: array<Option<T>>)
      requires Valid() && at + (front - back) <= size
      ensures fresh(newloc) && newloc.Length == size
      ensures newloc[at..at + (front - back)] == data[back..front]
    {
      newloc := new Option<T>[size];
      forall i | 0 <= i < front - back {
        newloc[at + i] := data[back + i];
      }
      forall k | 0 <= k < front - back
        ensures newloc[at..at + (front - back)][k] == data[back..front][k]
      {
        assert newloc[at + k] == data[back + k];
      }
    }

    method PushFront(x: Option<T>) returns (ok: bool)
      requires Valid()
      modifies this, data
      ensures Valid() && (data == old(data) || fresh(data))
      ensures ok == x.Some?
      ensures Contents() == old(Contents()) + if ok then [x.value] else []
      ensures nelem == if ok && old(front) == old(nelem) then 2 * old(nelem) else old(nelem)
      ensures pfcnt == old(pfcnt) + (if ok then 1 else 0) && pbcnt == old(pbcnt)
    {
      if x.None? {
        return false;
      }
      while front >= nelem
        invariant Valid() && Contents() == old(Contents()) && (data == old(data) || fresh(data))
        invariant pfcnt == old(pfcnt) && pbcnt == old(pbcnt)
        invariant if front >= nelem then front == old(front) && nelem == old(nelem)
                  else nelem == if old(front) == old(nelem) then 2 * old(nelem) else old(nelem)
        decreases front >= nelem
      {
        var grown := Resize(nelem * 2);
        if !grown {
          return false;
        }
      }
      ghost var s := data[back..front];
      data[front] := x;
      front := front + 1;
      assert data[back..front] == s + [x];
      pfcnt := pfcnt + 1;
      ok := true;
    }

    method PushBack(x: Option<T>) returns (ok: bool)
      requires Valid()
      modifies this, data
      ensures Valid() && (data == old(data) || fresh(data))
      ensures ok == x.Some?
      ensures Contents() == (if ok then [x.value] else []) + old(Contents())
      ensures ok ==> (nelem, back + 1) == if old(back) > 0 then (old(nelem), old(back))
                                          else GrowBack(old(nelem), |old(Contents())|, old(pfcnt), old(pbcnt))
      ensures pfcnt == old(pfcnt) && pbcnt == old(pbcnt) + if ok then 1 else 0
    {
      if x.None? {
        return false;
      }
      var room := MakeRoomBehind();
      if !room {
        return false;
      }
      PlaceBehind(x.value);
      pbcnt := pbcnt + 1;
      ok := true;
    }

    method PlaceBehind(x: T)
      requires Valid() && back > 0
      modifies this`back, data
      ensures Valid() && Contents() == [x] + old(Contents()) && back + 1 == old(back)
    {
      ghost var s := data[back..front];
      back := back - 1;
      data[back] := Some(x);
      assert data[back..front] == [Some(x)] + s;
    }

    /** The grow loop of deque_pushback. */
    method MakeRoomBehind() returns (ok: bool)
      requires Valid()
      modifies this`nelem, this`data, this`back, this`front
      ensures Valid() && Contents() == old(Contents()) && (data == old(data) || fresh(data))
      ensures ok && 0 < back
      ensures (nelem, back) == if old(back) > 0 then (old(nelem), old(back))
                               else GrowBack(old(nelem), |old(Contents())|, pfcnt, pbcnt)
    {
      ghost var count := |Contents()|;
      ghost var goal := if back > 0 then (nelem, back) else GrowBack(nelem, count, pfcnt, pbcnt);
      while back == 0
        invariant Valid() && Contents() == old(Contents()) && (data == old(data) || fresh(data))
        invariant goal == if back > 0 then (nelem, back) else GrowBack(nelem, count, pfcnt, pbcnt)
        decreases if back > 0 then 0 else 1 + if nelem < 20 then 20 - nelem else 0
      {
        var grown := Double();
        if !grown {
          return false;
        }
      }
      ok := true;
    }

    /** One round of it. */
    method Double() returns (ok: bool)
      requires Valid() && back == 0
      modifies this`nelem, this`data, this`back, this`front
      ensures Valid() && Contents() == old(Contents()) && fresh(data)
      ensures ok && nelem == 2 * old(nelem) && (old(nelem) >= 20 ==> back > 0)
      ensures GrowBack(old(nelem), |Contents()|, pfcnt, pbcnt)
           == if back > 0 then (nelem, back) else GrowBack(nelem, |Contents()|, pfcnt, pbcnt)
    {
      assert |Contents()| == Count() <= nelem;
      ok := Resize(nelem * 2);
    }

    method PopFront() returns (r: Option<T>)
      requires Valid()
      modifies this`back, this`front
      ensures Valid()
      ensures var q := old(Contents());
              if q == [] then r == None && Contents() == []
              else r == Some(q[|q| - 1]) && Contents() == q[..|q| - 1]
    {
      if back == front {
        return None;
      }
      ghost var s := data[back..front];
      assert s[|s| - 1] == data[front - 1];
      front := front - 1;
      r := data[front];
      assert data[back..front] == s[..|s| - 1];
      if front == back {
        Clear();
      }
    }

    method PopBack() returns (r: Option<T>)
      requires Valid()
      modifies this`back, this`front
      ensures Valid()
      ensures var q := old(Contents());
              if q == [] then r == None && Contents() == [] else r == Some(q[0]) && Contents() == q[1..]
    {
      if back == front {
        return None;
      }
      ghost var s := data[back..front];
      assert s[0] == data[back];
      r := data[back];
      back := back + 1;
      assert data[back..front] == s[1..];
      if front == back {
        Clear();
      }
    }

    method PeekFront() returns (r: Option<T>)
      requires Valid()
      ensures var q := Contents(); r == if q == [] then None else Some(q[|q| - 1])
    {
      r := if front == back then None else data[front - 1];
      assert front > back ==> data[back..front][front - back - 1] == data[front - 1];
    }

    method PeekBack() returns (r: Option<T>)
      requires Valid()
      ensures var q := Contents(); r == if q == [] then None else Some(q[0])
    {
      r := if front == back then None else data[back];
      assert front > back ==> data[back..front][0] == data[back];
    }

    /** countfac times the count, rounded down, is the new size; factors below 1 are refused. */
    method Shrink(countfac: real) returns (ok: bool)
      requires Valid()
      modifies this`nelem, this`data, this`back, this`front
      ensures Valid() && Contents() == old(Contents())
      ensures ok <==> countfac >= 1.0
      ensures ok ==> nelem == Max(ScaledSize(countfac, |Contents()|), 1) && fresh(data)
      ensures !ok ==> data == old(data)
    {
      if countfac < 1.0 {
        return false;
      }
      ok := Resize(ScaledSize(countfac, Count()));
    }

    // --- iteration ---

    /** The iterator stands on the element at position k from the back. */
    ghost predicate AtPosition(k: nat)
      requires Valid()
      reads this, data
    {
      k < |Contents()| && iter == back + k
    }

    method First(fromBack: bool) returns (r: Option<T>)
      requires Valid()
      modifies this`iter
      ensures Valid() && Contents() == old(Contents())
      ensures Contents() == [] ==> r == None
      ensures Contents() != [] ==>
                var k := if fromBack then 0 else |Contents()| - 1; AtPosition(k) && r == Some(Contents()[k])
    {
      if front == back {
        return None;
      }
      iter := if fromBack then back else front - 1;
      r := data[iter];
      assert data[back..front][iter - back] == data[iter];
    }

    method Next(forwards: bool, ghost k: nat) returns (r: Option<T>)
      requires Valid() && AtPosition(k)
      modifies this`iter
      ensures Valid() && Contents() == old(Contents())
      ensures var k' := if forwards then k + 1 else k - 1;
              if 0 <= k' < |Contents()| then AtPosition(k') && r == Some(Contents()[k'])
              else AtPosition(k) && r == None
    {
      if (!forwards && iter <= back) || (forwards && iter + 1 >= front) {
        return None;
      }
      iter := if forwards then iter + 1 else iter - 1;
      r := data[iter];
      assert data[back..front][iter - back] == data[iter];
    }
  }

  // --- whole runs ---

  datatype Op<T> =
    | PushAtFront(x: T) | PushAtBack(x: T) | PopAtFront | PopAtBack | Forget | ShrinkTo(factor: real)

  /** A sequence and what has been popped from it, the reference for one operation. */
  function Step<T>(q: seq<T>, op: Op<T>): (r: (seq<T>, Option<T>)) {
    match op
    case PushAtFront(x) => (q + [x], None)
    case PushAtBack(x) => ([x] + q, None)
    case PopAtFront => if q == [] then (q, None) else (q[..|q| - 1], Some(q[|q| - 1]))
    case PopAtBack => if q == [] then (q, None) else (q[1..], Some(q[0]))
    case Forget => ([], None)
    case ShrinkTo(_) => (q, None)
  }

  function Run<T>(q: seq<T>, ops: seq<Op<T>>): (r: (seq<T>, seq<Option<T>>))
    decreases |ops|
  {
    if ops == [] then (q, [])
    else
      var (q1, out) := Step(q, ops[0]);
      var (q2, outs) := Run(q1, ops[1..]);
      (q2, [out] + outs)
  }

  method Perform<T>(d: Deque<T>, op: Op<T>) returns (out: Option<T>)
    requires d.Valid()
    modifies d, d.data
    ensures d.Valid() && (d.data == old(d.data) || fresh(d.data))
    ensures (d.Contents(), out) == Step(old(d.Contents()), op)
  {
    out := None;
    match op
    case PushAtFront(x) => var ok := d.PushFront(Some(x));
    case PushAtBack(x) => var ok := d.PushBack(Some(x));
    case PopAtFront => out := d.PopFront();
    case PopAtBack => out := d.PopBack();
    case Forget => d.Clear();
    case ShrinkTo(f) => var ok := d.Shrink(f);
  }

  /** Any run of operations on the queue behaves like the sequence. */
  method Drive<T>(d: Deque<T>, ops: seq<Op<T>>) returns (outs: seq<Option<T>>)
    requires d.Valid()
    modifies d, d.data
    ensures d.Valid() && (d.Contents(), outs) == Run(old(d.Contents()), ops)
    decreases |ops|
  {
    outs := [];
    ghost var q0 := d.Contents();
    var i := 0;
    assert ops[0..] == ops && [] + Run(q0, ops).1 == Run(q0, ops).1;
    while i < |ops|
      invariant i <= |ops| && d.Valid() && (d.data == old(d.data) || fresh(d.data))
      invariant var rest := Run(d.Contents(), ops[i..]); Run(q0, ops) == (rest.0, outs + rest.1)
    {
      ghost var rest := Run(d.Contents(), ops[i..]);
      assert ops[i..][0] == ops[i] && ops[i..][1..] == ops[i + 1..];
      var out := Perform(d, ops[i]);
      ghost var after := Run(d.Contents(), ops[i + 1..]);
      assert rest == (after.0, [out] + after.1);
      assert outs + ([out] + after.1) == (outs + [out]) + after.1;
      outs := outs + [out];
      i := i + 1;
    }
    assert ops[i..] == [];
    assert outs + [] == outs;
  }

  /** Two pushes to the back of a deque of size 1: the first doubles it, the second doubles
      it twice, since after the first doubling still no room is left behind. */
  method DoublesTwice<T>(x: T, y: T) returns (d: Deque<T>, size1: nat, size2: nat)
    ensures d.Valid() && d.Contents() == [y, x]
    ensures size1 == 2 && size2 == 8 && d.nelem == size2
    ensures !RoomBehind(2, 4, 1, 0, 1) && RoomBehind(4, 8, 1, 0, 1)
  {
    d := new Deque<T>(1);
    var ok := d.PushBack(Some(x));
    assert Shifted(1, 0.0) == 1;
    size1 := d.nelem;
    ok := d.PushBack(Some(y));
    assert Shifted(1, -0.9) == 0;
    assert GrowBack(2, 1, 0, 1) == GrowBack(4, 1, 0, 1);
    assert Shifted(3, -0.5) == 1;
    size2 := d.nelem;
  }

  // --- the stack ---

  class Stack<T> {
    const data: Deque<T>

    ghost predicate Valid()
      reads data, data.data
    {
      data.Valid()
    }

    /** The elements, the top last. */
    ghost function Contents(): seq<T>
      requires Valid()
      reads data, data.data
    {
      data.Contents()
    }

    constructor (initsize: nat)
      ensures Valid() && Contents() == [] && fresh(data) && fresh(data.data)
    {
      data := new Deque<T>(initsize);
    }

    method Push(x: T)
      requires Valid()
      modifies data, data.data
      ensures Valid() && Contents() == old(Contents()) + [x]
      ensures data.data == old(data.data) || fresh(data.data)
    {
      var ok := data.PushFront(Some(x));
    }

    method Pop() returns (r: Option<T>)
      requires Valid()
      modifies data
      ensures Valid() && data.data == old(data.data)
      ensures var q := old(Contents());
              if q == [] then r == None && Contents() == []
              else r == Some(q[|q| - 1]) && Contents() == q[..|q| - 1]
    {
      r := data.PopFront();
    }
  }
}
