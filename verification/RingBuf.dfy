/** The growing ring buffer (libsrsbsns/ringbuf.c).  Pointers into the buffer are
    offsets from its start and may stand one past its end. */
module RingBuffers {
  import opened Prelude

  type byte = b: int | 0 <= b < 256

  /** The num bytes found from tail on, going round at the end of b. */
  ghost function Ring(b: seq<byte>, tail: nat, num: nat): (s: seq<byte>)
    requires tail <= |b| && num <= |b|
    ensures |s| == num
  {
    seq(num, i requires 0 <= i < num => if tail + i < |b| then b[tail + i] else b[tail + i - |b|])
  }

  /** The n oldest bytes lie in one piece, or in two when the end is in between. */
  lemma RingPieces(b: seq<byte>, tail: nat, num: nat, n: nat)
    requires tail <= |b| && n <= num <= |b|
    ensures Ring(b, tail, num)[..n]
         == if tail + n <= |b| then b[tail..tail + n] else b[tail..] + b[..tail + n - |b|]
  {
  }

  lemma RingDrop(b: seq<byte>, tail: nat, num: nat, n: nat)
    requires tail <= |b| && n <= num <= |b|
    ensures Ring(b, tail, num)[n..] == Ring(b, if tail + n <= |b| then tail + n else tail + n - |b|, num - n)
  {
  }

  /** The bytes of d written round the end, from the first free place on. */
  ghost function Written(b: seq<byte>, head: nat, d: seq<byte>): (r: seq<byte>)
    requires head <= |b| && |d| <= |b|
    ensures |r| == |b|
  {
    seq(|b|, k requires 0 <= k < |b| =>
      if head <= k < head + |d| then d[k - head]
      else if k + |b| < head + |d| then d[k + |b| - head]
      else b[k])
  }

  lemma RingAppend(b: seq<byte>, head: nat, tail: nat, num: nat, d: seq<byte>)
    requires tail <= |b| && head <= |b| && num + |d| <= |b|
    requires head == tail + num || head == tail + num - |b|
    ensures Ring(Written(b, head, d), tail, num + |d|) == Ring(b, tail, num) + d
  {
    var r := Written(b, head, d);
    var s := Ring(r, tail, num + |d|);
    forall i | 0 <= i < num + |d|
      ensures s[i] == (Ring(b, tail, num) + d)[i]
    {
      var p := if tail + i < |b| then tail + i else tail + i - |b|;
      assert s[i] == r[p];
    }
  }

  lemma SameElements(a: seq<byte>, b: seq<byte>)
    requires |a| == |b| && forall k :: 0 <= k < |a| ==> a[k] == b[k]
    ensures a == b
  {
  }

  lemma TwoPieces(d: seq<byte>, off: nat, a: seq<byte>, b: seq<byte>)
    requires off + |a| + |b| <= |d|
    requires forall k :: 0 <= k < |a| ==> d[off + k] == a[k]
    requires forall k :: 0 <= k < |b| ==> d[off + |a| + k] == b[k]
    ensures d[off..off + |a| + |b|] == a + b
  {
  }

  class RingBuf {
    var buf: array<byte>
    var head: nat
    var tail: nat
    var num: nat
    var bufsz: nat

    /** The shape of every reachable state.  head == tail both when empty and when full:
        only num tells them apart. */
    ghost predicate Valid()
      reads this
    {
      && bufsz == buf.Length > 0
      && head <= bufsz && tail <= bufsz && num <= bufsz
      && (num == 0 ==> head == tail)
      && (num > 0 ==> head > 0)
      && (num > 0 && head > tail ==> head - tail == num)
      && (num > 0 && head <= tail ==> (bufsz - tail) + head == num)
    }

    /** The buffered bytes, oldest first. */
    ghost function Contents(): seq<byte>
      requires Valid()
      reads this, buf
    {
      Ring(buf[..], tail, num)
    }

    constructor (initsize: nat)
      requires initsize > 0
      ensures Valid() && Contents() == [] && bufsz == initsize && fresh(buf)
    {
      buf := new byte[initsize];
      bufsz := initsize;
      head, tail, num := 0, 0, 0;
    }

    predicate Empty()
      requires Valid()
      reads this, buf
      ensures Empty() <==> Contents() == []
    {
      num == 0
    }

    function Count(): (n: nat)
      requires Valid()
      reads this, buf
      ensures n == |Contents()|
    {
      num
    }

    method Clear()
      requires Valid()
      modifies this`head, this`tail, this`num
      ensures Valid() && Contents() == []
    {
      head, tail, num := 0, 0, 0;
    }

    method DoGet(data: array<byte>, off: nat, want: nat, peek: bool) returns (got: nat)
      requires Valid() && data != buf && off + Min(want, num) <= data.Length
      modifies this`tail, this`num, data
      ensures Valid() && got == Min(want, |old(Contents())|)
      ensures data[off..off + got] == old(Contents())[..got]
      ensures forall k :: 0 <= k < off || off + got <= k < data.Length ==> data[k] == old(data[k])
      ensures Contents() == if peek then old(Contents()) else old(Contents())[got..]
    {
      if num == 0 {
        return 0;
      }
      got := if want > num then num else want;
      var wrapped := num > 0 && head <= tail;
      var avail1 := if !wrapped then head - tail else bufsz - tail;
      RingDrop(buf[..], tail, num, got);
      CopyOut(data, off, got, avail1);
      if avail1 >= got {
        if !peek {
          tail := tail + got;
        }
      } else {
        if !peek {
          tail := got - avail1;
        }
      }
      if !peek {
        num := num - got;
      }
    }

    /** The copies of do_get: one piece, or two when the first does not reach. */
    method CopyOut(data: array<byte>, off: nat, n: nat, avail1: nat)
      requires Valid() && data != buf && n <= num && off + n <= data.Length
      requires avail1 == if head > tail then head - tail else bufsz - tail
      modifies data
      ensures data[off..off + n] == Contents()[..n]
      ensures forall k :: 0 <= k < off || off + n <= k < data.Length ==> data[k] == old(data[k])
    {
      RingPieces(buf[..], tail, num, n);
      if avail1 >= n {
        CopyTo(data, off, tail, n);
        TwoPieces(data[..], off, buf[tail..tail + n], []);
      } else {
        CopyTo(data, off, tail, avail1);
        CopyTo(data, off + avail1, 0, n - avail1);
        TwoPieces(data[..], off, buf[tail..], buf[..n - avail1]);
      }
    }

    /** memcpy out of the buffer. */
    method CopyTo(data: array<byte>, off: nat, from: nat, n: nat)
      requires data != buf && off + n <= data.Length && from + n <= buf.Length
      modifies data
      ensures forall k :: off <= k < off + n ==> data[k] == buf[from + (k - off)]
      ensures forall k :: 0 <= k < off || off + n <= k < data.Length ==> data[k] == old(data[k])
    {
      forall i | 0 <= i < n {
        data[off + i] := buf[from + i];
      }
    }

    method Get(data: array<byte>, off: nat, want: nat) returns (got: nat)
      requires Valid() && data != buf && off + Min(want, num) <= data.Length
      modifies this`tail, this`num, data
      ensures Valid() && got == Min(want, |old(Contents())|)
      ensures data[off..off + got] == old(Contents())[..got]
      ensures forall k :: 0 <= k < off || off + got <= k < data.Length ==> data[k] == old(data[k])
      ensures Contents() == old(Contents())[got..]
    {
      got := DoGet(data, off, want, false);
    }

    method Peek(data: array<byte>, off: nat, want: nat) returns (got: nat)
      requires Valid() && data != buf && off + Min(want, num) <= data.Length
      modifies this`tail, this`num, data
      ensures Valid() && got == Min(want, |old(Contents())|)
      ensures data[off..off + got] == old(Contents())[..got]
      ensures forall k :: 0 <= k < off || off + got <= k < data.Length ==> data[k] == old(data[k])
      ensures Contents() == old(Contents())
    {
      got := DoGet(data, off, want, true);
    }

    method Put(data: array<byte>, n: nat)
      requires Valid() && data != buf && n <= data.Length
      modifies this, buf
      ensures Valid() && (buf == old(buf) || fresh(buf))
      ensures Contents() == old(Contents()) + data[..n]
      ensures bufsz >= old(bufsz) && (n <= old(bufsz - num) ==> buf == old(buf))
    {
      if n > bufsz - num {
        Grow(n);
      }
      PutInto(data, n);
    }

    /** The relocation branch of ringbuf_put: doubles the size until n more bytes fit and
        moves the contents to the start of the new buffer. */
    method Grow(n: nat)
      requires Valid()
      modifies this
      ensures Valid() && fresh(buf) && Contents() == old(Contents())
      ensures n <= bufsz - num && bufsz >= old(bufsz)
    {
      var nbufsz := bufsz;
      while nbufsz - num < n
        invariant nbufsz >= bufsz
        decreases n + num - nbufsz
      {
        nbufsz := nbufsz * 2;
      }
      var wrapped := num > 0 && head <= tail;
      ghost var c := Contents();
      RingPieces(buf[..], tail, num, num);
      var nbuf := new byte[nbufsz];
      if !wrapped {
        forall i | 0 <= i < head - tail {
          nbuf[i] := buf[tail + i];
        }
      } else {
        var firstlen := bufsz - tail;
        forall i | 0 <= i < firstlen {
          nbuf[i] := buf[tail + i];
        }
        forall i | 0 <= i < head {
          nbuf[firstlen + i] := buf[i];
        }
      }
      assert nbuf[..num] == c;
      head := num;
      tail := 0;
      buf := nbuf;
      bufsz := nbufsz;
      RingPieces(buf[..], 0, num, num);
    }

    /** The copy into a buffer that has room. */
    method PutInto(data: array<byte>, n: nat)
      requires Valid() && data != buf && n <= data.Length && n <= bufsz - num
      modifies this`head, this`num, buf
      ensures Valid() && Contents() == old(Contents()) + data[..n]
    {
      var wrapped := num > 0 && head <= tail;
      var avail1 := if wrapped then tail - head else bufsz - head;
      RingAppend(buf[..], head, tail, num, data[..n]);
      ghost var b := Written(buf[..], head, data[..n]);
      if avail1 >= n {
        CopyFrom(head, data, 0, n);
        SameElements(buf[..], b);
        head := head + n;
      } else {
        CopyFrom(head, data, 0, avail1);
        CopyFrom(0, data, avail1, n - avail1);
        SameElements(buf[..], b);
        head := n - avail1;
      }
      num := num + n;
    }

    /** memcpy into the buffer. */
    method CopyFrom(at: nat, data: array<byte>, from: nat, n: nat)
      requires data != buf && from + n <= data.Length && at + n <= buf.Length
      modifies buf
      ensures forall k :: at <= k < at + n ==> buf[k] == data[from + (k - at)]
      ensures forall k :: 0 <= k < at || at + n <= k < buf.Length ==> buf[k] == old(buf[k])
    {
      forall i | 0 <= i < n {
        buf[at + i] := data[from + i];
      }
    }
  }

  // --- whole runs ---

  datatype Op = Put(bytes: seq<byte>) | Get(n: nat) | Peek(n: nat) | Clear

  /** What a run reports: all bytes put, all bytes got, and what is left. */
  datatype Trace = Trace(put: seq<byte>, got: seq<byte>, left: seq<byte>)

  /** A byte queue, the reference for one operation. */
  function Step(t: Trace, op: Op): Trace {
    match op
    case Put(d) => Trace(t.put + d, t.got, t.left + d)
    case Get(n) => Trace(t.put, t.got + t.left[..Min(n, |t.left|)], t.left[Min(n, |t.left|)..])
    case Peek(n) => t
    case Clear => t.(left := [])
  }

  function Run(t: Trace, ops: seq<Op>): Trace {
    if ops == [] then t else Step(Run(t, ops[..|ops| - 1]), ops[|ops| - 1])
  }

  /** Over clear-free runs nothing is lost, duplicated or reordered. */
  lemma {:induction false} NothingLost(ops: seq<Op>)
    requires forall i :: 0 <= i < |ops| ==> !ops[i].Clear?
    ensures var t := Run(Trace([], [], []), ops); t.got + t.left == t.put
  {
    if ops != [] {
      var t := Run(Trace([], [], []), ops[..|ops| - 1]);
      NothingLost(ops[..|ops| - 1]);
      match ops[|ops| - 1]
      case Put(d) => assert t.got + (t.left + d) == (t.got + t.left) + d;
      case Get(n) =>
        var k := Min(n, |t.left|);
        assert (t.got + t.left[..k]) + t.left[k..] == t.got + (t.left[..k] + t.left[k..]);
        assert t.left[..k] + t.left[k..] == t.left;
      case Peek(n) =>
    }
  }

  method Perform(b: RingBuf, op: Op, put: seq<byte>, got: seq<byte>) returns (put': seq<byte>, got': seq<byte>)
    requires b.Valid()
    modifies b, b.buf
    ensures b.Valid() && (b.buf == old(b.buf) || fresh(b.buf))
    ensures Trace(put', got', b.Contents()) == Step(Trace(put, got, old(b.Contents())), op)
  {
    put', got' := put, got;
    match op
    case Put(d) =>
      var data := new byte[|d|](k requires 0 <= k < |d| => d[k]);
      assert data[..|d|] == d;
      b.Put(data, |d|);
      put' := put + d;
    case Get(n) =>
      var data := new byte[n];
      var k := b.Get(data, 0, n);
      got' := got + data[..k];
    case Peek(n) =>
      var data := new byte[n];
      var k := b.Peek(data, 0, n);
    case Clear =>
      b.Clear();
  }

  /** Any run of operations on the buffer behaves like the byte queue. */
  method Drive(initsize: nat, ops: seq<Op>) returns (t: Trace)
    requires initsize > 0
    ensures t == Run(Trace([], [], []), ops)
  {
    var b := new RingBuf(initsize);
    var put, got: seq<byte> := [], [];
    for i := 0 to |ops|
      invariant b.Valid() && fresh(b) && fresh(b.buf)
      invariant Trace(put, got, b.Contents()) == Run(Trace([], [], []), ops[..i])
    {
      assert ops[..i + 1][..i] == ops[..i];
      put, got := Perform(b, ops[i], put, got);
    }
    assert ops[..|ops|] == ops;
    var rest := new byte[b.num];
    var k := b.Peek(rest, 0, b.num);
    t := Trace(put, got, rest[..k]);
  }
}
