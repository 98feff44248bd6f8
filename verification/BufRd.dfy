/** The buffered reader over a ring buffer (libsrsbsns/bufrd.c).  read(2) is an oracle
    that hands out a stream in chunks of its own choosing and may fail at any call. */
module BufferedReaders {
  import opened Prelude
  import opened RingBuffers

  const CHUNK: nat := 4096
  const NEWLINE: byte := 10

  /** The open descriptor: what has not been read yet, and how often read failed. */
  class Stream {
    var unread: seq<byte>
    var errors: nat

    constructor (bytes: seq<byte>)
      ensures unread == bytes && errors == 0
    {
      unread, errors := bytes, 0;
    }

    method Read(dest: array<byte>, n: nat) returns (r: int)
      requires 0 < n <= dest.Length
      modifies this, dest
      ensures r == -1 ==> unread == old(unread) && errors == old(errors) + 1
      ensures r != -1 ==> 0 <= r <= n && errors == old(errors)
      ensures r >= 0 ==> old(unread) == dest[..r] + unread && (r == 0 <==> old(unread) == [])
    {
      var fail: bool := *;
      if fail {
        errors := errors + 1;
        return -1;
      }
      if unread == [] {
        return 0;
      }
      var k: nat :| 1 <= k <= n && k <= |unread|;
      forall i | 0 <= i < k {
        dest[i] := unread[i];
      }
      assert dest[..k] == unread[..k];
      unread := unread[k..];
      r := k;
    }
  }

  /** Conversion of an int to uint8_t. */
  function ByteOf(c: int): byte {
    c % 256
  }

  /** How many bytes a return value of read reports. */
  function Delivered(r: int): nat {
    if r < 0 then 0 else r
  }

  /** The length of the shortest prefix ending in a newline, or of everything. */
  function LineLength(p: seq<byte>): (n: nat)
    ensures n <= |p|
  {
    if p == [] then 0
    else if p[0] == NEWLINE then 1
    else 1 + LineLength(p[1..])
  }

  lemma {:induction false} LineLengthMeaning(p: seq<byte>)
    ensures var n := LineLength(p);
            && (n == 0 <==> p == [])
            && (forall i :: 0 <= i < n - 1 ==> p[i] != NEWLINE)
            && (n < |p| ==> p[n - 1] == NEWLINE)
  {
    if p != [] && p[0] != NEWLINE {
      LineLengthMeaning(p[1..]);
      var n := LineLength(p);
      forall i | 0 <= i < n - 1 ensures p[i] != NEWLINE {
        if i > 0 { assert p[i] == p[1..][i - 1]; }
      }
    }
  }

  ghost predicate NewlineFree(q: seq<byte>) {
    forall i :: 0 <= i < |q| ==> q[i] != NEWLINE
  }

  /** A line taken off the front of p is as long as LineLength says, unless it was cut short. */
  lemma {:induction false} LineLengthIs(p: seq<byte>, line: seq<byte>, rest: seq<byte>)
    requires p == line + rest
    ensures p[|line|..] == rest
    ensures NewlineFree(line) ==> |line| <= LineLength(p) && (rest == [] ==> |line| == LineLength(p))
    ensures |line| > 0 && line[|line| - 1] == NEWLINE && NewlineFree(line[..|line| - 1]) ==> |line| == LineLength(p)
  {
    if line != [] {
      assert p[0] == line[0] && p[1..] == line[1..] + rest;
      LineLengthIs(p[1..], line[1..], rest);
      if |line| > 1 {
        assert line[..|line| - 1][1..] == line[1..][..|line| - 2];
        assert NewlineFree(line[..|line| - 1]) ==> line[..|line| - 1][0] != NEWLINE;
        assert NewlineFree(line[..|line| - 1]) ==> NewlineFree(line[..|line| - 1][1..]);
      }
    }
  }

  lemma Extend(d: seq<byte>, p: seq<byte>, n: nat)
    requires n < |d| && n < |p| && d[..n] == p[..n] && d[n] == p[n]
    ensures d[..n + 1] == p[..n + 1]
  {
    assert d[..n + 1] == d[..n] + [d[n]];
    assert p[..n + 1] == p[..n] + [p[n]];
  }

  lemma TakeRest(first: seq<byte>, d: seq<byte>, c: seq<byte>, n: nat)
    requires |first| + n <= |d| && n <= |c|
    requires d[..|first|] == first && d[|first|..|first| + n] == c[..n]
    ensures first + c == d[..|first| + n] + c[n..]
  {
    assert d[..|first| + n] == d[..|first|] + d[|first|..|first| + n];
    assert c == c[..n] + c[n..];
  }

  class BufRd {
    const src: Stream
    const buf: RingBuf
    var unget: int
    var eof: bool

    ghost predicate Valid()
      reads this, buf
    {
      buf.Valid()
    }

    /** What the reader holds: an ungot byte, then the ring buffer. */
    ghost function Held(): seq<byte>
      requires Valid()
      reads this, buf, buf.buf
    {
      (if unget != -1 then [ByteOf(unget)] else []) + buf.Contents()
    }

    /** Everything still to be delivered. */
    ghost function Pending(): seq<byte>
      requires Valid()
      reads this, buf, buf.buf, src
    {
      Held() + src.unread
    }

    ghost function Now(): State
      requires Valid()
      reads this, buf, buf.buf, src
    {
      State(Pending(), unget != -1, |Held()|)
    }

    constructor (src: Stream, bufsz: nat)
      requires bufsz > 0
      ensures Valid() && this.src == src && Pending() == src.unread && !eof && unget == -1
      ensures fresh(buf) && fresh(buf.buf)
    {
      this.src := src;
      buf := new RingBuf(bufsz);
      unget, eof := -1, false;
    }

    predicate Buffered()
      requires Valid()
      reads this, buf, buf.buf
      ensures Buffered() <==> Held() != []
    {
      unget != -1 || !buf.Empty()
    }

    /** How many bytes are held. */
    function HeldCount(): (n: nat)
      requires Valid()
      reads this, buf, buf.buf
      ensures n == |Held()|
    {
      (if unget != -1 then 1 else 0) + buf.Count()
    }

    method ReadMore() returns (r: int)
      requires Valid() && unget == -1 && buf.Contents() == []
      modifies buf, buf.buf, src
      ensures Valid() && (buf.buf == old(buf.buf) || fresh(buf.buf))
      ensures Pending() == old(Pending())
      ensures r == -1 ==> src.errors == old(src.errors) + 1 && Held() == []
      ensures r != -1 ==> r >= 0 && src.errors == old(src.errors) && |Held()| == r
      ensures r == 0 ==> old(Pending()) == []
      ensures r > 0 ==> old(Pending()) != []
      ensures r <= 0 ==> src.unread == old(src.unread) && Held() == []
    {
      var chunk := new byte[CHUNK];
      r := src.Read(chunk, CHUNK);
      if r > 0 {
        buf.Put(chunk, r);
      }
    }

    method Read(dest: array<byte>, nbytes: nat) returns (r: int)
      requires Valid() && nbytes <= dest.Length && dest != buf.buf
      modifies this`unget, buf, buf.buf, src, dest
      ensures Valid() && (buf.buf == old(buf.buf) || fresh(buf.buf))
      ensures -1 <= r <= nbytes
      ensures r == -1 <==> nbytes == 0 || src.errors != old(src.errors)
      ensures src.errors == old(src.errors) || src.errors == old(src.errors) + 1
      ensures old(Pending()) == dest[..Delivered(r)] + Pending()
      ensures forall k :: Delivered(r) <= k < dest.Length ==> dest[k] == old(dest[k])
      ensures r == 0 ==> old(Pending()) == []
      ensures unget == if r > 0 then -1 else old(unget)
      ensures nbytes > 0 && old(Held()) != [] ==> r == Min(nbytes, |old(Held())|)
      ensures r >= 0 ==> r == nbytes || Held() == []
      ensures old(Held()) != [] || r <= 0 ==> src.unread == old(src.unread)
    {
      if nbytes == 0 {
        return -1;
      }
      if unget == -1 && buf.Empty() {
        var m := ReadMore();
        if m <= 0 {
          return m;
        }
      }
      r := Deliver(dest, nbytes);
    }

    /** The part of bufrd_read after the buffer has been topped up. */
    method Deliver(dest: array<byte>, nbytes: nat) returns (r: nat)
      requires Valid() && 0 < nbytes <= dest.Length && dest != buf.buf && Held() != []
      modifies this`unget, buf, dest
      ensures Valid() && buf.buf == old(buf.buf) && unget == -1
      ensures r == Min(nbytes, |old(Held())|)
      ensures old(Held()) == dest[..r] + Held()
      ensures forall k :: r <= k < dest.Length ==> dest[k] == old(dest[k])
    {
      ghost var first := if unget != -1 then [ByteOf(unget)] else [];
      var ungot := TakeUngot(dest);
      if !buf.Empty() {
        var n := buf.Get(dest, ungot, nbytes - ungot);
        r := ungot + n;
        TakeRest(first, dest[..], old(buf.Contents()), n);
      } else {
        r := ungot;
      }
    }

    method TakeUngot(dest: array<byte>) returns (ungot: nat)
      requires 0 < dest.Length
      modifies this`unget, dest
      ensures unget == -1 && ungot == (if old(unget) != -1 then 1 else 0)
      ensures dest[..ungot] == if old(unget) != -1 then [ByteOf(old(unget))] else []
      ensures forall k :: ungot <= k < dest.Length ==> dest[k] == old(dest[k])
    {
      ungot := 0;
      if unget != -1 {
        dest[0] := ByteOf(unget);
        unget := -1;
        ungot := 1;
      }
    }

    method GetChar() returns (c: int)
      requires Valid()
      modifies this`unget, this`eof, buf, buf.buf, src
      ensures Valid() && (buf.buf == old(buf.buf) || fresh(buf.buf))
      ensures -1 <= c < 256
      ensures src.errors == old(src.errors) || src.errors == old(src.errors) + 1
      ensures c == -1 <==> src.errors != old(src.errors) || old(Pending()) == []
      ensures c == -1 ==> Pending() == old(Pending()) && (eof <==> src.errors == old(src.errors))
      ensures c != -1 ==> old(Pending()) == [c] + Pending() && eof == old(eof)
      ensures unget == -1 && (old(unget) != -1 ==> c != -1)
      ensures old(Held()) != [] || c == -1 ==> src.unread == old(src.unread)
    {
      if unget != -1 {
        c := ByteOf(unget);
        unget := -1;
        return;
      }
      var ch := new byte[1];
      var r := Read(ch, 1);
      if r <= 0 {
        eof := r == 0;
        return -1;
      }
      assert ch[..1] == [ch[0]];
      c := ch[0];
    }

    /** One byte can be pushed back.  Pushing back -1 is accepted and does nothing. */
    method UngetChar(c: int) returns (ok: bool)
      requires Valid()
      modifies this`unget
      ensures Valid()
      ensures ok <==> old(unget) == -1
      ensures unget == if ok then c else old(unget)
      ensures Pending() == if ok && c != -1 then [ByteOf(c)] + old(Pending()) else old(Pending())
    {
      if unget != -1 {
        return false;
      }
      unget := c;
      ok := true;
    }

    /** Keeps one byte of the line if there is room for it and the terminator. */
    method Store(dest: array<byte>, at: nat, room: nat, c: byte, ghost line: seq<byte>, ghost destsz: nat)
      returns (at': nat, room': nat)
      requires 1 <= destsz <= dest.Length && at == Min(|line|, destsz - 1) && room == destsz - at
      requires dest[..at] == line[..at]
      modifies dest
      ensures at' == Min(|line| + 1, destsz - 1) && room' == destsz - at'
      ensures dest[..at'] == (line + [c])[..at']
      ensures forall k :: at' <= k < dest.Length ==> dest[k] == old(dest[k])
    {
      at', room' := at, room;
      if room > 1 {
        dest[at] := c;
        at', room' := at + 1, room - 1;
        Extend(dest[..], line + [c], at);
      }
    }

    /** The loop of bufrd_getline: stops after a newline, at the end or on an error.
        The bytes taken are line. */
    method ReadLine(dest: array<byte>, destsz: nat) returns (bc: nat, at: nat, ghost line: seq<byte>)
      requires Valid() && 1 <= destsz <= dest.Length && dest != buf.buf
      modifies this`unget, this`eof, buf, buf.buf, src, dest
      ensures Valid() && (buf.buf == old(buf.buf) || fresh(buf.buf))
      ensures src.errors == old(src.errors) || src.errors == old(src.errors) + 1
      ensures bc == |line| && old(Pending()) == line + Pending()
      ensures unget == -1 && (old(unget) != -1 ==> bc > 0)
      ensures NewlineFree(line) || (bc > 0 && line[bc - 1] == NEWLINE && NewlineFree(line[..bc - 1]))
      ensures NewlineFree(line) && src.errors == old(src.errors) ==> Pending() == []
      ensures src.errors != old(src.errors) ==> NewlineFree(line)
      ensures bc <= |old(Held())| ==> src.unread == old(src.unread)
      ensures at == Min(bc, destsz - 1) && dest[..at] == line[..at]
      ensures forall k :: at <= k < dest.Length ==> dest[k] == old(dest[k])
    {
      ghost var p := Pending();
      bc, line, at := 0, [], 0;
      var room := destsz;
      var c := GetChar();
      while c != -1
        invariant Valid() && (buf.buf == old(buf.buf) || fresh(buf.buf)) && dest != buf.buf
        invariant -1 <= c < 256 && bc == |line| && NewlineFree(line)
        invariant unget == -1 && (old(unget) != -1 ==> bc > 0 || c != -1)
        invariant c != -1 ==> p == line + ([c] + Pending()) && src.errors == old(src.errors)
        invariant c == -1 ==> p == line + Pending() && (src.errors == old(src.errors) ==> Pending() == [])
        invariant src.errors == old(src.errors) || src.errors == old(src.errors) + 1
        invariant bc + (if c == -1 then 0 else 1) <= |old(Held())| ==> src.unread == old(src.unread)
        invariant at == Min(bc, destsz - 1) && room == destsz - at && dest[..at] == line[..at]
        invariant forall k :: at <= k < dest.Length ==> dest[k] == old(dest[k])
        decreases |p| - bc, c != -1
      {
        at, room := Store(dest, at, room, c, line, destsz);
        Assoc(line, [c], Pending());
        line := line + [c];
        bc := bc + 1;
        if c == NEWLINE {
          assert line[..bc - 1] + [c] == line && line[bc - 1] == NEWLINE;
          break;
        }
        c := GetChar();
      }
    }

    method GetLine(dest: array<byte>, destsz: nat) returns (bc: nat)
      requires Valid() && 1 <= destsz <= dest.Length && dest != buf.buf
      modifies this`unget, this`eof, buf, buf.buf, src, dest
      ensures Valid() && (buf.buf == old(buf.buf) || fresh(buf.buf))
      ensures src.errors == old(src.errors) || src.errors == old(src.errors) + 1
      ensures bc <= LineLength(old(Pending())) && Pending() == old(Pending())[bc..]
      ensures unget == -1 && (old(unget) != -1 ==> bc > 0)
      ensures src.errors == old(src.errors) ==> bc == LineLength(old(Pending()))
      ensures bc <= |old(Held())| ==> src.unread == old(src.unread)
      ensures var m := Min(bc, destsz - 1);
              && dest[..m] == old(Pending())[..m] && dest[m] == 0
              && forall k :: m < k < dest.Length ==> dest[k] == old(dest[k])
    {
      ghost var p, line := Pending(), [];
      var at;
      bc, at, line := ReadLine(dest, destsz);
      LineLengthIs(p, line, Pending());
      assert line[..at] == p[..at];
      dest[at] := 0;
    }
  }

  // --- whole runs ---

  datatype Op = ReadSome(n: nat) | ReadChar | ReadLn(destsz: nat) | Unget(c: int)

  /** What a call hands to its caller: the return value, and what it stored. */
  datatype Reply = Chunk(r: int, bytes: seq<byte>) | Char(c: int) | Line(bc: nat, text: seq<byte>) | Pushed(ok: bool)

  /** The bytes a caller gets out of a reply; the terminator of a line is not one. */
  function BytesOf(y: Reply): (b: seq<byte>) {
    match y
    case Chunk(_, bytes) => bytes
    case Char(c) => if 0 <= c < 256 then [c] else []
    case Line(_, text) => if text == [] then [] else text[..|text| - 1]
    case Pushed(_) => []
  }

  /** How many bytes the caller knows to be gone.  A line may be longer than what of it
      was stored. */
  function Gone(y: Reply): nat {
    if y.Line? then y.bc else |BytesOf(y)|
  }

  /** A call with its reply, and how many bytes the reader holds after it. */
  datatype Call = Call(op: Op, y: Reply, held: nat)

  /** Is a byte put back? */
  predicate PutsBack(x: Call) {
    x.op.Unget? && x.y == Pushed(true) && x.op.c != -1
  }

  /** The reader: what is still to be delivered, whether a byte of it has been put back, and
      how much of it the reader holds, so that no read is needed for it. */
  datatype State = State(pending: seq<byte>, ungot: bool, held: nat)

  function Next(s: State, x: Call): State {
    if PutsBack(x) then State([ByteOf(x.op.c)] + s.pending, true, x.held)
    else if x.op.Unget? then s.(held := x.held)
    else State(if Gone(x.y) <= |s.pending| then s.pending[Gone(x.y)..] else [],
               s.ungot && x.op.ReadSome? && Gone(x.y) == 0, x.held)
  }

  /** A call with room for a line needs room for its terminator. */
  predicate Callable(op: Op) {
    op.ReadLn? ==> op.destsz >= 1
  }

  /** What the reader holds goes first and without a read.  A read that delivers less than
      it is asked for leaves nothing held. */
  predicate HeldFits(s: State, x: Call) {
    && (x.op.Unget? ==> x.held == s.held + if PutsBack(x) then 1 else 0)
    && (!x.op.Unget? && Gone(x.y) <= s.held ==> x.held == s.held - Gone(x.y))
    && (x.op.ReadSome? && x.op.n > 0 && x.y.Chunk? ==>
          (s.held > 0 ==> x.y.r == Min(x.op.n, s.held)) && (x.y.r == x.op.n || x.held == 0))
  }

  /** The replies that fit state s.  clean says that no read failed. */
  predicate ReplyFits(s: State, op: Op, y: Reply, clean: bool)
    requires Callable(op)
  {
    match op
    case ReadSome(n) =>
      && y.Chunk? && -1 <= y.r <= n && |y.bytes| == Delivered(y.r) && y.bytes <= s.pending
      && (n == 0 ==> y.r == -1)
      && (y.r == 0 ==> s.pending == [])
      && (y.r == -1 && n > 0 ==> !clean && !s.ungot)
    case ReadChar =>
      && y.Char?
      && (if y.c == -1 then !s.ungot && (clean ==> s.pending == [])
          else s.pending != [] && y.c == s.pending[0])
    case ReadLn(destsz) =>
      && y.Line? && y.bc <= LineLength(s.pending)
      && (clean ==> y.bc == LineLength(s.pending)) && (s.ungot ==> y.bc > 0)
      && y.text == s.pending[..Min(y.bc, destsz - 1)] + [0]
    case Unget(c) => y == Pushed(!s.ungot)
  }

  predicate Fits(s: State, x: Call, clean: bool) {
    Callable(x.op) && ReplyFits(s, x.op, x.y, clean) && HeldFits(s, x)
  }

  function After(s: State, xs: seq<Call>): State
    decreases |xs|
  {
    if xs == [] then s else After(Next(s, xs[0]), xs[1..])
  }

  /** From state s on, every reply fits where the calls before it have led. */
  predicate IsRun(s: State, xs: seq<Call>, clean: bool)
    decreases |xs|
  {
    xs != [] ==> Fits(s, xs[0], clean) && IsRun(Next(s, xs[0]), xs[1..], clean)
  }

  lemma {:induction false} RunOn(s: State, xs: seq<Call>, clean: bool, x: Call)
    requires IsRun(s, xs, clean) && Fits(After(s, xs), x, clean)
    ensures IsRun(s, xs + [x], clean) && After(s, xs + [x]) == Next(After(s, xs), x)
    decreases |xs|
  {
    if xs == [] {
      assert xs + [x] == [x];
    } else {
      assert (xs + [x])[1..] == xs[1..] + [x];
      RunOn(Next(s, xs[0]), xs[1..], clean, x);
    }
  }

  /** What a reply shows and how much it takes is there to be taken. */
  lemma Available(s: State, x: Call, clean: bool)
    requires Fits(s, x, clean)
    ensures var b := BytesOf(x.y); Gone(x.y) <= |s.pending| && |b| <= Gone(x.y) && b == s.pending[..|b|]
  {
    if x.y.Line? {
      assert BytesOf(x.y) == s.pending[..Min(x.y.bc, x.op.destsz - 1)];
    }
  }

  /** How far into the stream the reader is after a call. */
  function Moved(i: int, x: Call): int {
    if PutsBack(x) then i - 1 else i + Gone(x.y)
  }

  function EndPos(i: int, xs: seq<Call>): int
    decreases |xs|
  {
    if xs == [] then i else EndPos(Moved(i, xs[0]), xs[1..])
  }

  /** Only the byte of p that was the last to go is ever put back. */
  predicate PutsBackTheLast(p: seq<byte>, i: int, xs: seq<Call>)
    decreases |xs|
  {
    xs != [] ==>
      && (PutsBack(xs[0]) ==> 0 < i <= |p| && p[i - 1] == ByteOf(xs[0].op.c))
      && PutsBackTheLast(p, Moved(i, xs[0]), xs[1..])
  }

  /** Every reply shows the bytes of p from the position of its call on. */
  predicate InPlace(p: seq<byte>, i: int, xs: seq<Call>)
    decreases |xs|
  {
    xs != [] ==>
      && 0 <= i <= i + |BytesOf(xs[0].y)| <= |p| && BytesOf(xs[0].y) == p[i..i + |BytesOf(xs[0].y)|]
      && InPlace(p, Moved(i, xs[0]), xs[1..])
  }

  /** Through any run, put-backs of the last byte and read errors included, every reply
      shows the stream where the reader is, and what is pending is the rest of it. */
  lemma {:induction false} RunFollowsStream(p: seq<byte>, i: nat, s: State, xs: seq<Call>, clean: bool)
    requires i <= |p| && s.pending == p[i..]
    requires IsRun(s, xs, clean) && PutsBackTheLast(p, i, xs)
    ensures InPlace(p, i, xs)
    ensures 0 <= EndPos(i, xs) <= |p| && After(s, xs).pending == p[EndPos(i, xs)..]
    decreases |xs|
  {
    if xs != [] {
      var b := BytesOf(xs[0].y);
      Available(s, xs[0], clean);
      assert p[i..][..|b|] == p[i..i + |b|];
      NextFollowsStream(p, i, s, xs[0]);
      RunFollowsStream(p, Moved(i, xs[0]), Next(s, xs[0]), xs[1..], clean);
    }
  }

  lemma NextFollowsStream(p: seq<byte>, i: nat, s: State, x: Call)
    requires i <= |p| && s.pending == p[i..] && Gone(x.y) <= |s.pending| && (x.op.Unget? ==> x.y.Pushed?)
    requires PutsBack(x) ==> 0 < i && p[i - 1] == ByteOf(x.op.c)
    ensures 0 <= Moved(i, x) <= |p| && Next(s, x).pending == p[Moved(i, x)..]
  {
  }

  function AllBytes(xs: seq<Call>): seq<byte> {
    if xs == [] then [] else BytesOf(xs[0].y) + AllBytes(xs[1..])
  }

  /** Nothing was put back, and no line was longer than its room. */
  predicate Plain(xs: seq<Call>) {
    xs != [] ==> !PutsBack(xs[0]) && Gone(xs[0].y) == |BytesOf(xs[0].y)| && Plain(xs[1..])
  }

  /** Then the bytes delivered, one reply after the other, and the bytes pending are what
      was pending at the outset. */
  lemma {:induction false} NothingLost(s: State, xs: seq<Call>, clean: bool)
    requires IsRun(s, xs, clean) && Plain(xs)
    ensures s.pending == AllBytes(xs) + After(s, xs).pending
    decreases |xs|
  {
    if xs != [] {
      var s' := Next(s, xs[0]);
      Available(s, xs[0], clean);
      assert s.pending == BytesOf(xs[0].y) + s'.pending;
      NothingLost(s', xs[1..], clean);
      Assoc(BytesOf(xs[0].y), AllBytes(xs[1..]), After(s, xs).pending);
    }
  }

  /** No call has taken anything. */
  predicate Idle(xs: seq<Call>) {
    xs != [] ==> Gone(xs[0].y) == 0 && Idle(xs[1..])
  }

  /** A byte put back is the next to go, and goes once: as long as no call takes anything
      the state stays and further put-backs are refused; the first call that does take
      something, x, takes the byte first and leaves the reader behind it. */
  lemma {:induction false} UngotComesNext(s: State, u: Call, xs: seq<Call>, x: Call, clean: bool)
    requires Fits(s, u, clean) && PutsBack(u)
    requires IsRun(Next(s, u), xs, clean) && Idle(xs) && Fits(After(Next(s, u), xs), x, clean)
    ensures var s1 := Next(s, u);
            && After(s1, xs) == s1
            && (Gone(x.y) == 0 ==> Next(s1, x) == s1 && !PutsBack(x))
            && (Gone(x.y) > 0 ==>
                  && (BytesOf(x.y) != [] ==> BytesOf(x.y)[0] == ByteOf(u.op.c))
                  && Gone(x.y) - 1 <= |s.pending|
                  && Next(s1, x) == State(s.pending[Gone(x.y) - 1..], false, x.held))
    decreases |xs|
  {
    var s1 := Next(s, u);
    if xs == [] {
      Available(s1, x, clean);
    } else {
      assert Next(s1, xs[0]) == s1;
      UngotComesNext(s, u, xs[1..], x, clean);
    }
  }

  // --- the reader makes such runs ---

  method PerformLine(r: BufRd, destsz: nat) returns (y: Reply)
    requires r.Valid() && destsz >= 1
    modifies r, r.buf, r.buf.buf, r.src
    ensures r.Valid() && (r.buf.buf == old(r.buf.buf) || fresh(r.buf.buf)) && r.src.errors >= old(r.src.errors)
    ensures Fits(old(r.Now()), Call(ReadLn(destsz), y, |r.Held()|), r.src.errors == old(r.src.errors))
    ensures r.Now() == Next(old(r.Now()), Call(ReadLn(destsz), y, |r.Held()|))
  {
    var dest := new byte[destsz];
    var bc := r.GetLine(dest, destsz);
    ghost var m := Min(bc, destsz - 1);
    assert dest[..m + 1] == dest[..m] + [0];
    y := Line(bc, dest[..Min(bc, destsz - 1) + 1]);
  }

  method PerformSome(r: BufRd, n: nat) returns (y: Reply)
    requires r.Valid()
    modifies r, r.buf, r.buf.buf, r.src
    ensures r.Valid() && (r.buf.buf == old(r.buf.buf) || fresh(r.buf.buf)) && r.src.errors >= old(r.src.errors)
    ensures Fits(old(r.Now()), Call(ReadSome(n), y, |r.Held()|), r.src.errors == old(r.src.errors))
    ensures r.Now() == Next(old(r.Now()), Call(ReadSome(n), y, |r.Held()|))
  {
    var dest := new byte[n];
    var k := r.Read(dest, n);
    y := Chunk(k, dest[..Delivered(k)]);
  }

  method Perform(r: BufRd, op: Op) returns (x: Call)
    requires r.Valid() && Callable(op)
    modifies r, r.buf, r.buf.buf, r.src
    ensures r.Valid() && (r.buf.buf == old(r.buf.buf) || fresh(r.buf.buf)) && r.src.errors >= old(r.src.errors)
    ensures x.op == op && Fits(old(r.Now()), x, r.src.errors == old(r.src.errors))
    ensures r.Now() == Next(old(r.Now()), x)
  {
    var y;
    match op {
      case ReadSome(n) => y := PerformSome(r, n);
      case ReadChar =>
        var c := r.GetChar();
        y := Char(c);
      case ReadLn(destsz) => y := PerformLine(r, destsz);
      case Unget(c) =>
        var ok := r.UngetChar(c);
        y := Pushed(ok);
    }
    x := Call(op, y, r.HeldCount());
  }

  function OpsOf(xs: seq<Call>): (ops: seq<Op>)
    ensures |ops| == |xs|
  {
    seq(|xs|, i requires 0 <= i < |xs| => xs[i].op)
  }

  lemma OpsMore(xs: seq<Call>, x: Call)
    ensures OpsOf(xs + [x]) == OpsOf(xs) + [x.op]
  {
  }

  /** The calls xs have led the reader r from state s to where it is. */
  ghost predicate Led(r: BufRd, s: State, xs: seq<Call>, clean: bool)
    requires r.Valid()
    reads r, r.buf, r.buf.buf, r.src
  {
    IsRun(s, xs, false) && (clean ==> IsRun(s, xs, true)) && r.Now() == After(s, xs)
  }

  lemma LedOn(s: State, xs: seq<Call>, x: Call, wasClean: bool, clean: bool)
    requires IsRun(s, xs, false) && (wasClean ==> IsRun(s, xs, true)) && Fits(After(s, xs), x, clean)
    ensures IsRun(s, xs + [x], false) && (wasClean && clean ==> IsRun(s, xs + [x], true))
    ensures After(s, xs + [x]) == Next(After(s, xs), x)
  {
    RunOn(s, xs, false, x);
    if wasClean && clean {
      RunOn(s, xs, true, x);
    }
  }

  method PerformNext(r: BufRd, op: Op, xs: seq<Call>, ghost s: State, ghost errors: nat) returns (xs': seq<Call>)
    requires r.Valid() && Callable(op) && r.src.errors >= errors && Led(r, s, xs, r.src.errors == errors)
    modifies r, r.buf, r.buf.buf, r.src
    ensures r.Valid() && (r.buf.buf == old(r.buf.buf) || fresh(r.buf.buf))
    ensures r.src.errors >= errors && Led(r, s, xs', r.src.errors == errors) && OpsOf(xs') == OpsOf(xs) + [op]
  {
    ghost var before := r.src.errors;
    var x := Perform(r, op);
    LedOn(s, xs, x, before == errors, r.src.errors == before);
    OpsMore(xs, x);
    xs' := xs + [x];
  }

  /** Any run of calls, with any chunking and any read errors, gets replies that fit, and the
      reader ends up where they lead.  If only bytes just taken were put back, every reply
      shows the stream in place, and what is held and unread is the rest.  If nothing was
      put back and no line cut short, the bytes delivered, held and unread are the stream. */
  method Drive(src: Stream, bufsz: nat, ops: seq<Op>) returns (r: BufRd, xs: seq<Call>)
    requires bufsz > 0 && forall i :: 0 <= i < |ops| ==> Callable(ops[i])
    modifies src
    ensures r.Valid() && r.src == src && OpsOf(xs) == ops
    ensures IsRun(State(old(src.unread), false, 0), xs, src.errors == old(src.errors))
    ensures r.Now() == After(State(old(src.unread), false, 0), xs)
    ensures var p := old(src.unread);
            PutsBackTheLast(p, 0, xs) ==>
              InPlace(p, 0, xs) && 0 <= EndPos(0, xs) <= |p| && r.Held() + src.unread == p[EndPos(0, xs)..]
    ensures Plain(xs) ==> old(src.unread) == AllBytes(xs) + r.Held() + src.unread
  {
    r := new BufRd(src, bufsz);
    xs := [];
    ghost var s := State(src.unread, false, 0);
    var i := 0;
    while i < |ops|
      invariant i <= |ops| && OpsOf(xs) == ops[..i] && src.errors >= old(src.errors)
      invariant r.Valid() && fresh(r) && fresh(r.buf) && fresh(r.buf.buf) && r.src == src
      invariant Led(r, s, xs, src.errors == old(src.errors))
    {
      TakeOneMore(ops, i);
      xs := PerformNext(r, ops[i], xs, s, old(src.errors));
      i := i + 1;
    }
    RunShowsStream(s, xs, src.errors == old(src.errors));
    Assoc(AllBytes(xs), r.Held(), src.unread);
  }

  lemma RunShowsStream(s: State, xs: seq<Call>, clean: bool)
    requires IsRun(s, xs, false)
    ensures PutsBackTheLast(s.pending, 0, xs) ==>
              InPlace(s.pending, 0, xs) && 0 <= EndPos(0, xs) <= |s.pending|
              && After(s, xs).pending == s.pending[EndPos(0, xs)..]
    ensures Plain(xs) ==> s.pending == AllBytes(xs) + After(s, xs).pending
  {
    if PutsBackTheLast(s.pending, 0, xs) {
      RunFollowsStream(s.pending, 0, s, xs, false);
    }
    if Plain(xs) {
      NothingLost(s, xs, false);
    }
  }
}
