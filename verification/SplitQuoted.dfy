/** The in-place quoted tokenizer (splitquoted in libsrsbsns/misc.c), against a grammar
    that reads whole tokens at a time. */
module Tokenizers {
  import opened Prelude

  const NUL: char := '\0'
  const INT_MAX: nat := 0x7fff_ffff

  predicate IsQuote(c: char) { c == '\'' || c == '"' }

  predicate IsSpace(c: char) { c == ' ' || c == '\t' || c == '\r' || c == '\n' }

  // --- the grammar ---

  /** The length of the part of s before the first q. */
  function Span(s: string, q: char): (n: nat)
    ensures n <= |s|
  {
    if s == [] || s[0] == q then 0 else 1 + Span(s[1..], q)
  }

  /** The length of the unquoted word s starts with: it ends before a space or a quote. */
  function WordLen(s: string): (n: nat)
    ensures n <= |s|
  {
    if s == [] || IsSpace(s[0]) || IsQuote(s[0]) then 0 else 1 + WordLen(s[1..])
  }

  /** What follows a quoted body and its closing quote, if it has one. */
  function AfterQuoted(s: string, q: char): (r: string)
    ensures |r| <= |s|
  {
    if Span(s, q) < |s| then s[Span(s, q) + 1..] else []
  }

  /** Spaces separate tokens; a quoted token runs to the next quote of its kind or the
      end; a word runs to the next space or quote. */
  function Tokens(s: string): seq<string>
    decreases |s|
  {
    if s == [] then []
    else if IsSpace(s[0]) then Tokens(s[1..])
    else if IsQuote(s[0]) then [s[1..][..Span(s[1..], s[0])]] + Tokens(AfterQuoted(s[1..], s[0]))
    else [s[..WordLen(s)]] + Tokens(s[WordLen(s)..])
  }

  /** Where the tokens of s start when s itself starts at base. */
  function Starts(s: string, base: nat): seq<nat>
    decreases |s|, 0
  {
    if s == [] then []
    else if IsSpace(s[0]) then Starts(s[1..], base + 1)
    else if IsQuote(s[0]) then [base + 1] + QuotedStarts(s[1..], s[0], base + 1)
    else [base] + Starts(s[WordLen(s)..], base + WordLen(s))
  }

  function QuotedStarts(s: string, q: char, base: nat): seq<nat>
    decreases |s|, 1
  {
    if Span(s, q) < |s| then Starts(s[Span(s, q) + 1..], base + Span(s, q) + 1) else []
  }

  /** What is left of s when every token has been terminated in place: the character
      that ends a word and the quote that closes a token become NUL. */
  function Cut(s: string): (r: string)
    ensures |r| == |s|
    decreases |s|, 0
  {
    if s == [] then []
    else if IsSpace(s[0]) then [s[0]] + Cut(s[1..])
    else if IsQuote(s[0]) then [s[0]] + CutQuoted(s[1..], s[0])
    else s[..WordLen(s)] + CutWordEnd(s[WordLen(s)..])
  }

  function CutQuoted(s: string, q: char): (r: string)
    ensures |r| == |s|
    decreases |s|, 1
  {
    var n := Span(s, q);
    if n < |s| then s[..n] + [NUL] + Cut(s[n + 1..]) else s
  }

  function CutWordEnd(s: string): (r: string)
    ensures |r| == |s|
    decreases |s|, 1
  {
    if s == [] then [] else [NUL] + Cut(s)[1..]
  }

  // --- the state machine, one character at a time ---

  datatype Mode = Between | InWord | InQuotes(q: char)

  function NextMode(m: Mode, c: char): Mode {
    match m
    case Between => if IsQuote(c) then InQuotes(c) else if IsSpace(c) then Between else InWord
    case InWord => if IsQuote(c) then InQuotes(c) else if IsSpace(c) then Between else InWord
    case InQuotes(q) => if c == q then Between else m
  }

  /** What the machine leaves in place of c. */
  function Left(m: Mode, c: char): char {
    match m
    case Between => c
    case InWord => if IsQuote(c) || IsSpace(c) then NUL else c
    case InQuotes(q) => if c == q then NUL else c
  }

  /** The start the machine records at c, which stands at base. */
  function Begun(m: Mode, c: char, base: nat): seq<nat> {
    match m
    case Between => if IsQuote(c) then [base + 1] else if IsSpace(c) then [] else [base]
    case InWord => if IsQuote(c) then [base + 1] else []
    case InQuotes(_) => []
  }

  /** What the grammar makes of the rest s of an input in the middle of which the
      machine is in mode m. */
  function CutFrom(m: Mode, s: string): string {
    match m
    case Between => Cut(s)
    case InWord => s[..WordLen(s)] + CutWordEnd(s[WordLen(s)..])
    case InQuotes(q) => CutQuoted(s, q)
  }

  function StartsFrom(m: Mode, s: string, base: nat): seq<nat> {
    match m
    case Between => Starts(s, base)
    case InWord => Starts(s[WordLen(s)..], base + WordLen(s))
    case InQuotes(q) => QuotedStarts(s, q, base)
  }

  lemma WordStep(s: string)
    requires s != [] && !IsSpace(s[0]) && !IsQuote(s[0])
    ensures WordLen(s) == 1 + WordLen(s[1..])
    ensures s[..WordLen(s)] == [s[0]] + s[1..][..WordLen(s[1..])]
    ensures s[WordLen(s)..] == s[1..][WordLen(s[1..])..]
  {
  }

  lemma CutStep(m: Mode, s: string)
    requires s != [] && (m.InQuotes? ==> IsQuote(m.q))
    ensures CutFrom(m, s) == [Left(m, s[0])] + CutFrom(NextMode(m, s[0]), s[1..])
  {
    match m
    case Between =>
      if !IsSpace(s[0]) && !IsQuote(s[0]) {
        WordCutStep(s);
      }
    case InWord => WordCutStep(s);
    case InQuotes(q) => QuotedCutStep(s, q);
  }

  lemma WordCutStep(s: string)
    requires s != []
    ensures CutFrom(InWord, s) == [Left(InWord, s[0])] + CutFrom(NextMode(InWord, s[0]), s[1..])
  {
    if IsSpace(s[0]) || IsQuote(s[0]) {
      var w := WordLen(s);
      assert w == 0 && s[..w] == [] && s[w..] == s;
      assert s[..w] + CutWordEnd(s[w..]) == CutWordEnd(s);
      assert Cut(s)[1..] == CutFrom(NextMode(InWord, s[0]), s[1..]);
    } else {
      var w := WordLen(s[1..]);
      WordStep(s);
      Assoc([s[0]], s[1..][..w], CutWordEnd(s[1..][w..]));
    }
  }

  lemma Prefixed(c: char, x: string, y: string)
    ensures ([c] + x) + [NUL] + y == [c] + (x + [NUL] + y)
  {
    Assoc([c], x, [NUL]);
    Assoc([c], x + [NUL], y);
  }

  lemma QuotedCutStep(s: string, q: char)
    requires s != [] && IsQuote(q)
    ensures CutQuoted(s, q) == [Left(InQuotes(q), s[0])] + CutFrom(NextMode(InQuotes(q), s[0]), s[1..])
  {
    var n := Span(s, q);
    if s[0] == q {
      assert n == 0 && s[..n] + [NUL] == [NUL];
    } else if n < |s| {
      QuotedGoesOn(s, q, n - 1);
    } else {
      assert [s[0]] + s[1..] == s;
    }
  }

  lemma QuotedGoesOn(s: string, q: char, k: nat)
    requires s != [] && s[0] != q && Span(s, q) == k + 1 < |s|
    ensures CutQuoted(s, q) == [s[0]] + CutQuoted(s[1..], q)
  {
    var r := s[1..];
    var x, y := r[..k], Cut(r[k + 1..]);
    assert CutQuoted(r, q) == x + [NUL] + y;
    SlicesOfRest(s, k);
    assert CutQuoted(s, q) == ([s[0]] + x) + [NUL] + y;
    Prefixed(s[0], x, y);
  }

  lemma SlicesOfRest(s: string, k: nat)
    requires k + 1 < |s|
    ensures s[..k + 1] == [s[0]] + s[1..][..k] && s[k + 2..] == s[1..][k + 1..]
  {
  }

  lemma StartsStep(m: Mode, s: string, base: nat)
    requires s != [] && (m.InQuotes? ==> IsQuote(m.q))
    ensures StartsFrom(m, s, base) == Begun(m, s[0], base) + StartsFrom(NextMode(m, s[0]), s[1..], base + 1)
  {
    var c := s[0];
    match m
    case Between =>
      if !IsSpace(c) && !IsQuote(c) {
        WordStep(s);
      }
    case InWord =>
      if IsSpace(c) || IsQuote(c) {
        assert s[0..] == s;
      } else {
        WordStep(s);
      }
    case InQuotes(q) =>
      var n := Span(s, q);
      if c != q && n < |s| {
        assert s[n + 1..] == s[1..][n..];
      }
  }

  // --- C strings ---

  ghost predicate NulFree(s: seq<char>) {
    forall i :: 0 <= i < |s| ==> s[i] != NUL
  }

  /** The string at the front of b: what comes before the first NUL. */
  function CString(b: seq<char>): (r: string)
    ensures |r| <= |b|
  {
    if b == [] || b[0] == NUL then [] else [b[0]] + CString(b[1..])
  }

  lemma {:induction false} CStringMeaning(b: seq<char>)
    ensures var n := |CString(b)|; NulFree(CString(b)) && b[..n] == CString(b) && (n < |b| ==> b[n] == NUL)
  {
    if b != [] && b[0] != NUL {
      CStringMeaning(b[1..]);
      assert b == [b[0]] + b[1..];
    }
  }

  lemma {:induction false} CStringOf(a: seq<char>, rest: seq<char>)
    requires NulFree(a) && (rest == [] || rest[0] == NUL)
    ensures CString(a + rest) == a
  {
    if a == [] {
      assert a + rest == rest;
    } else {
      assert (a + rest)[1..] == a[1..] + rest;
      CStringOf(a[1..], rest);
    }
  }

  // --- the tokens are where the starts say ---

  /** The strings at the given starts of b are the given tokens. */
  ghost predicate Placed(b: seq<char>, starts: seq<nat>, tokens: seq<string>) {
    if starts == [] || tokens == [] then starts == [] && tokens == []
    else
      && starts[0] <= |b| && CString(b[starts[0]..]) == tokens[0]
      && Placed(b, starts[1..], tokens[1..])
  }

  lemma {:induction false} PlacedAt(b: seq<char>, starts: seq<nat>, tokens: seq<string>)
    requires Placed(b, starts, tokens)
    ensures |starts| == |tokens|
    ensures forall k :: 0 <= k < |starts| ==> starts[k] <= |b| && CString(b[starts[k]..]) == tokens[k]
  {
    if starts != [] {
      PlacedAt(b, starts[1..], tokens[1..]);
      forall k | 0 <= k < |starts|
        ensures starts[k] <= |b| && CString(b[starts[k]..]) == tokens[k]
      {
        if k > 0 {
          assert starts[1..][k - 1] == starts[k] && tokens[1..][k - 1] == tokens[k];
        }
      }
    }
  }

  lemma PlacedCons(b: seq<char>, at: nat, t: string, starts: seq<nat>, tokens: seq<string>,
                   allStarts: seq<nat>, allTokens: seq<string>)
    requires at <= |b| && CString(b[at..]) == t && Placed(b, starts, tokens)
    requires allStarts == [at] + starts && allTokens == [t] + tokens
    ensures Placed(b, allStarts, allTokens)
  {
    assert allStarts[1..] == starts && allTokens[1..] == tokens;
  }

  lemma NulFreeTake(s: string, n: nat)
    requires NulFree(s) && n <= |s|
    ensures NulFree(s[..n])
  {
  }

  lemma NulFreeDrop(s: string, n: nat)
    requires NulFree(s) && n <= |s|
    ensures NulFree(s[n..])
  {
  }

  /** In a buffer that holds the cut form of s from base on, followed by a NUL, the
      tokens of s are at their starts. */
  lemma {:induction false} AllPlaced(b: seq<char>, base: nat, s: string, tail: seq<char>)
    requires NulFree(s) && base <= |b| && b[base..] == Cut(s) + ([NUL] + tail)
    ensures Placed(b, Starts(s, base), Tokens(s))
    decreases |s|, 2
  {
    if s == [] {
    } else if IsSpace(s[0]) {
      NulFreeDrop(s, 1);
      Assoc([s[0]], Cut(s[1..]), [NUL] + tail);
      Advance(b, base, [s[0]], Cut(s[1..]) + ([NUL] + tail));
      AllPlaced(b, base + 1, s[1..], tail);
    } else if IsQuote(s[0]) {
      NulFreeDrop(s, 1);
      Assoc([s[0]], CutQuoted(s[1..], s[0]), [NUL] + tail);
      Advance(b, base, [s[0]], CutQuoted(s[1..], s[0]) + ([NUL] + tail));
      QuotedPlaced(b, base + 1, s[1..], s[0], tail);
    } else {
      WordPlaced(b, base, s, tail);
    }
  }

  lemma CutQuotedShape(s: string, q: char, end: string)
    ensures var n := Span(s, q);
            CutQuoted(s, q) + end == s[..n] + if n < |s| then [NUL] + (Cut(s[n + 1..]) + end) else end
  {
    var n := Span(s, q);
    if n < |s| {
      Assoc(s[..n] + [NUL], Cut(s[n + 1..]), end);
      Assoc(s[..n], [NUL], Cut(s[n + 1..]) + end);
    } else {
      assert s[..n] == s;
    }
  }

  lemma {:induction false} QuotedPlaced(b: seq<char>, base: nat, s: string, q: char, tail: seq<char>)
    requires NulFree(s) && base <= |b| && b[base..] == CutQuoted(s, q) + ([NUL] + tail)
    ensures Placed(b, [base] + QuotedStarts(s, q, base), [s[..Span(s, q)]] + Tokens(AfterQuoted(s, q)))
    decreases |s|, 1
  {
    var n := Span(s, q);
    QuotedAt(b, base, s, q, tail);
    if n < |s| {
      AllPlaced(b, base + n + 1, s[n + 1..], tail);
    }
    var starts, tokens := QuotedStarts(s, q, base), Tokens(AfterQuoted(s, q));
    PlacedCons(b, base, s[..n], starts, tokens, [base] + starts, [s[..n]] + tokens);
  }

  lemma QuotedAt(b: seq<char>, base: nat, s: string, q: char, tail: seq<char>)
    requires NulFree(s) && base <= |b| && b[base..] == CutQuoted(s, q) + ([NUL] + tail)
    ensures var n := Span(s, q);
            && CString(b[base..]) == s[..n]
            && (n < |s| ==> NulFree(s[n + 1..]) && base + n + 1 <= |b|
                            && b[base + n + 1..] == Cut(s[n + 1..]) + ([NUL] + tail))
  {
    var n := Span(s, q);
    NulFreeTake(s, n);
    CutQuotedShape(s, q, [NUL] + tail);
    if n < |s| {
      NulFreeDrop(s, n + 1);
      StringThen(b, base, s[..n], Cut(s[n + 1..]) + ([NUL] + tail));
    } else {
      StringThen(b, base, s[..n], tail);
    }
  }

  /** A terminated string at base, and what comes after its NUL. */
  lemma StringThen(b: seq<char>, base: nat, x: string, y: seq<char>)
    requires NulFree(x) && base <= |b| && b[base..] == x + ([NUL] + y)
    ensures CString(b[base..]) == x
    ensures base + |x| + 1 <= |b| && b[base + |x| + 1..] == y
  {
    CStringOf(x, [NUL] + y);
    Advance(b, base, x, [NUL] + y);
    Advance(b, base + |x|, [NUL], y);
  }

  lemma {:induction false} WordPlaced(b: seq<char>, base: nat, s: string, tail: seq<char>)
    requires NulFree(s) && base <= |b| && b[base..] == Cut(s) + ([NUL] + tail)
    requires s != [] && !IsSpace(s[0]) && !IsQuote(s[0])
    ensures Placed(b, Starts(s, base), Tokens(s))
    decreases |s|, 1
  {
    WordAt(b, base, s, tail);
    WordJoin(b, base, s, WordLen(s), tail);
  }

  /** The word at base, and after it the tokens of the rest. */
  lemma {:induction false} WordJoin(b: seq<char>, base: nat, s: string, w: nat, tail: seq<char>)
    requires s != [] && !IsSpace(s[0]) && !IsQuote(s[0]) && w == WordLen(s) > 0
    requires base <= |b| && CString(b[base..]) == s[..w]
    requires NulFree(s[w..]) && (s[w..] == [] || IsSpace(s[w..][0]) || IsQuote(s[w..][0]))
    requires base + w <= |b| && b[base + w..] == CutWordEnd(s[w..]) + ([NUL] + tail)
    ensures Placed(b, Starts(s, base), Tokens(s))
    decreases |s|, 0
  {
    AfterWordPlaced(b, base + w, s[w..], tail);
    var starts, tokens := Starts(s[w..], base + w), Tokens(s[w..]);
    PlacedCons(b, base, s[..w], starts, tokens, [base] + starts, [s[..w]] + tokens);
  }

  lemma WordAt(b: seq<char>, base: nat, s: string, tail: seq<char>)
    requires NulFree(s) && base <= |b| && b[base..] == Cut(s) + ([NUL] + tail)
    requires s != [] && !IsSpace(s[0]) && !IsQuote(s[0])
    ensures var w := WordLen(s);
            && CString(b[base..]) == s[..w]
            && w > 0 && NulFree(s[w..]) && (s[w..] == [] || IsSpace(s[w..][0]) || IsQuote(s[w..][0]))
            && base + w <= |b| && b[base + w..] == CutWordEnd(s[w..]) + ([NUL] + tail)
  {
    WordEnds(s);
    NulFreeDrop(s, WordLen(s));
    var w := WordLen(s);
    var rest := CutWordEnd(s[w..]) + ([NUL] + tail);
    NulFreeTake(s, w);
    Assoc(s[..w], CutWordEnd(s[w..]), [NUL] + tail);
    assert Cut(s) == s[..w] + CutWordEnd(s[w..]);
    assert b[base..] == s[..w] + rest;
    assert rest[0] == NUL;
    CStringOf(s[..w], rest);
    Advance(b, base, s[..w], rest);
  }

  /** Past the end of a word, whose last character has become NUL. */
  lemma {:induction false} AfterWordPlaced(b: seq<char>, base: nat, r: string, tail: seq<char>)
    requires NulFree(r) && base <= |b| && b[base..] == CutWordEnd(r) + ([NUL] + tail)
    requires r == [] || IsSpace(r[0]) || IsQuote(r[0])
    ensures Placed(b, Starts(r, base), Tokens(r))
    decreases |r|, 3
  {
    if r != [] {
      NulFreeDrop(r, 1);
      Assoc([NUL], Cut(r)[1..], [NUL] + tail);
      Advance(b, base, [NUL], Cut(r)[1..] + ([NUL] + tail));
      if IsSpace(r[0]) {
        assert Cut(r)[1..] == Cut(r[1..]);
        AllPlaced(b, base + 1, r[1..], tail);
      } else {
        assert Cut(r)[1..] == CutQuoted(r[1..], r[0]);
        QuotedPlaced(b, base + 1, r[1..], r[0], tail);
      }
    }
  }

  lemma Advance(b: seq<char>, base: nat, x: seq<char>, y: seq<char>)
    requires base <= |b| && (b[base..] == x + y)
    ensures base + |x| <= |b| && b[base + |x|..] == y
  {
    assert b[base..][|x|..] == y;
  }

  lemma WordEnds(s: string)
    ensures WordLen(s) < |s| ==> IsSpace(s[WordLen(s)]) || IsQuote(s[WordLen(s)])
  {
  }

  // --- the sizing call ---

  lemma {:induction false} SpanOfBody(s: string, q: char)
    ensures Span(s[..Span(s, q)], q) == Span(s, q)
  {
    if s != [] && s[0] != q {
      SpanOfBody(s[1..], q);
      assert s[..Span(s, q)][1..] == s[1..][..Span(s[1..], q)];
    }
  }

  lemma {:induction false} WordLenOfWord(s: string)
    ensures WordLen(s[..WordLen(s)]) == WordLen(s)
  {
    if s != [] && !IsSpace(s[0]) && !IsQuote(s[0]) {
      WordLenOfWord(s[1..]);
      assert s[..WordLen(s)][1..] == s[1..][..WordLen(s[1..])];
    }
  }

  /** Splitting an input that has been split already finds its first token only. */
  lemma {:induction false} SplitAgain(s: string)
    requires NulFree(s)
    ensures Tokens(CString(Cut(s))) == if Tokens(s) == [] then [] else [Tokens(s)[0]]
    decreases |s|
  {
    if s == [] {
    } else if IsSpace(s[0]) {
      NulFreeDrop(s, 1);
      SplitAgain(s[1..]);
      var t := CString(Cut(s[1..]));
      assert Cut(s)[1..] == Cut(s[1..]);
      assert ([s[0]] + t)[1..] == t;
    } else if IsQuote(s[0]) {
      NulFreeDrop(s, 1);
      SplitQuotedAgain(s[0], s[1..]);
    } else {
      SplitWordAgain(s);
    }
  }

  lemma SplitQuotedAgain(q: char, r: string)
    requires NulFree(r) && IsQuote(q)
    ensures Tokens(CString([q] + CutQuoted(r, q))) == [r[..Span(r, q)]]
  {
    var n := Span(r, q);
    NulFreeTake(r, n);
    CutQuotedShape(r, q, []);
    var x := CutQuoted(r, q);
    assert x + [] == x;
    var rest := if n < |r| then [NUL] + (Cut(r[n + 1..]) + []) else [];
    assert rest != [] ==> rest[0] == NUL;
    CStringOf(r[..n], rest);
    assert CString([q] + x) == [q] + r[..n] by {
      assert ([q] + x)[1..] == x;
    }
    OnlyQuoted(q, r);
  }

  lemma OnlyQuoted(q: char, r: string)
    requires IsQuote(q)
    ensures Tokens([q] + r[..Span(r, q)]) == [r[..Span(r, q)]]
  {
    var body := r[..Span(r, q)];
    SpanOfBody(r, q);
    assert ([q] + body)[1..] == body && body[..|body|] == body;
    assert Tokens(AfterQuoted(body, q)) == [];
  }

  lemma SplitWordAgain(s: string)
    requires NulFree(s) && s != [] && !IsSpace(s[0]) && !IsQuote(s[0])
    ensures Tokens(CString(Cut(s))) == [s[..WordLen(s)]]
  {
    var w := WordLen(s);
    var t := s[..w];
    WordLenOfWord(s);
    NulFreeTake(s, w);
    CStringOf(t, CutWordEnd(s[w..]));
    assert t[..w] == t && t[w..] == [];
    assert Tokens(t) == [t] + [];
  }

  /** The header suggests calling with room for 0 tokens first to learn how many there
      are.  The count is right, but the input is used up: a second call agrees with the
      first exactly when the first reported at most one token. */
  lemma SizingCallIff(s: string, tail: string)
    requires NulFree(s)
    ensures |Tokens(CString(Cut(s) + ([NUL] + tail)))| == |Tokens(s)| <==> |Tokens(s)| <= 1
  {
    CStringStops(Cut(s), tail);
    SplitAgain(s);
  }

  lemma {:induction false} CStringStops(a: string, tail: string)
    ensures CString(a + ([NUL] + tail)) == CString(a)
  {
    if a == [] {
      assert a + ([NUL] + tail) == [NUL] + tail;
    } else {
      assert (a + ([NUL] + tail))[1..] == a[1..] + ([NUL] + tail);
      CStringStops(a[1..], tail);
    }
  }

  /** A two-word input for which the second call comes up short. */
  lemma SizingCallFails()
    ensures |Tokens("a b")| == 2 && CString(Cut("a b")) == "a" && |Tokens("a")| == 1
  {
    var s := "a b";
    assert s[1..] == " b" && " b"[1..] == "b";
    assert WordLen("b") == 1 && WordLen(" b") == 0 && WordLen(s) == 1;
    assert Tokens("b") == ["b"[..1]] + Tokens("b"[1..]);
    assert Tokens(" b") == Tokens("b");
    assert Tokens(s) == [s[..1]] + Tokens(" b");
    assert Cut(s) == s[..1] + CutWordEnd(" b");
    CStringOf("a", CutWordEnd(" b"));
    assert s[..1] == "a";
    assert WordLen("a") == 1;
    assert Tokens("a") == ["a"[..1]] + Tokens("a"[1..]);
  }

  // --- rendering and splitting ---

  /** A token as it is written, bare or between two quotes, and the blanks in front of it. */
  datatype Item = Word(space: string, token: string) | Quoted(space: string, token: string, q: char)

  function Written(x: Item): string {
    match x
    case Word(_, token) => token
    case Quoted(_, token, q) => [q] + (token + [q])
  }

  function Render(items: seq<Item>): string {
    if items == [] then [] else items[0].space + (Written(items[0]) + Render(items[1..]))
  }

  function TokensOf(items: seq<Item>): seq<string> {
    if items == [] then [] else [items[0].token] + TokensOf(items[1..])
  }

  ghost predicate Spaces(s: string) {
    forall i :: 0 <= i < |s| ==> IsSpace(s[i])
  }

  ghost predicate Bare(s: string) {
    forall i :: 0 <= i < |s| ==> !IsSpace(s[i]) && !IsQuote(s[i])
  }

  /** x can be written so, and be told from a rest that starts with next. */
  ghost predicate Writable(x: Item, next: string) {
    && Spaces(x.space)
    && match x
       case Word(_, token) => token != [] && Bare(token) && (next == [] || IsSpace(next[0]) || IsQuote(next[0]))
       case Quoted(_, token, q) => IsQuote(q) && q !in token
  }

  lemma {:induction false} SpacesSkipped(space: string, s: string)
    requires Spaces(space)
    ensures Tokens(space + s) == Tokens(s)
  {
    if space == [] {
      assert space + s == s;
    } else {
      assert (space + s)[1..] == space[1..] + s;
      SpacesSkipped(space[1..], s);
    }
  }

  lemma {:induction false} SpanStops(t: string, q: char, s: string)
    requires q !in t
    ensures Span(t + ([q] + s), q) == |t|
  {
    if t == [] {
      assert t + ([q] + s) == [q] + s;
    } else {
      assert (t + ([q] + s))[1..] == t[1..] + ([q] + s);
      SpanStops(t[1..], q, s);
    }
  }

  lemma {:induction false} WordStops(t: string, s: string)
    requires Bare(t) && (s == [] || IsSpace(s[0]) || IsQuote(s[0]))
    ensures WordLen(t + s) == |t|
  {
    if t == [] {
      assert t + s == s;
    } else {
      assert (t + s)[1..] == t[1..] + s;
      WordStops(t[1..], s);
    }
  }

  /** The first token is the one written, and the others are those of the rest. */
  lemma FirstToken(x: Item, rest: string)
    requires Writable(x, rest)
    ensures Tokens(x.space + (Written(x) + rest)) == [x.token] + Tokens(rest)
  {
    SpacesSkipped(x.space, Written(x) + rest);
    match x
    case Word(_, token) =>
      WordStops(token, rest);
      assert (token + rest)[..|token|] == token && (token + rest)[|token|..] == rest;
    case Quoted(_, token, q) =>
      var body := token + ([q] + rest);
      assert Written(x) + rest == [q] + body && ([q] + body)[1..] == body;
      SpanStops(token, q, rest);
      assert body[..|token|] == token && body[|token| + 1..] == rest;
  }

  /** What the rendering of items starts with, when tail follows it. */
  lemma RenderStart(items: seq<Item>, tail: string)
    requires tail == [] || IsSpace(tail[0]) || IsQuote(tail[0])
    requires forall i :: 0 <= i < |items| ==> Spaces(items[i].space)
    requires items != [] ==> if items[0].Word? then items[0].space != [] else IsQuote(items[0].q)
    ensures var s := Render(items) + tail; s == [] || IsSpace(s[0]) || IsQuote(s[0])
  {
    if items != [] && items[0].space != [] {
      assert (Render(items) + tail)[0] == items[0].space[0];
    }
  }

  ghost predicate AllWritable(items: seq<Item>) {
    && (forall i :: 0 <= i < |items| ==> Spaces(items[i].space))
    && (forall i :: 0 <= i < |items| ==>
          if items[i].Word? then items[i].token != [] && Bare(items[i].token)
          else IsQuote(items[i].q) && items[i].q !in items[i].token)
    && (forall i :: 0 <= i < |items| - 1 && items[i].Word? && items[i + 1].Word? ==> items[i + 1].space != [])
  }

  lemma {:induction false} RenderThen(items: seq<Item>, tail: string)
    requires AllWritable(items) && (tail == [] || IsSpace(tail[0]) || IsQuote(tail[0]))
    ensures Tokens(Render(items) + tail) == TokensOf(items) + Tokens(tail)
  {
    if items == [] {
      assert Render(items) + tail == tail;
    } else {
      var x, rest := items[0], Render(items[1..]) + tail;
      if x.Word? {
        RenderStart(items[1..], tail);
      }
      RenderThen(items[1..], tail);
      FirstToken(x, rest);
      Assoc(x.space, Written(x) + Render(items[1..]), tail);
      Assoc(Written(x), Render(items[1..]), tail);
      Assoc([x.token], TokensOf(items[1..]), Tokens(tail));
    }
  }

  lemma OpenQuote(end: string, open: string)
    requires Spaces(end) && (open != [] ==> IsQuote(open[0]) && open[0] !in open[1..])
    ensures Tokens(end + open) == if open == [] then [] else [open[1..]]
  {
    SpacesSkipped(end, open);
    if open != [] {
      NoSpan(open[1..], open[0]);
      assert open[1..][..|open[1..]|] == open[1..];
    }
  }

  lemma {:induction false} NoSpan(s: string, q: char)
    requires q !in s
    ensures Span(s, q) == |s|
  {
    if s != [] {
      NoSpan(s[1..], q);
    }
  }

  lemma LiteralSpaces(s: string)
    requires forall c :: c in s ==> c in {' ', '\t', '\r', '\n'}
    ensures Spaces(s)
  {
    assert forall i :: 0 <= i < |s| ==> s[i] in s;
  }

  lemma LiteralBare(s: string)
    requires forall c :: c in s ==> c !in {' ', '\t', '\r', '\n', '\'', '"'}
    ensures Bare(s)
  {
    assert forall i :: 0 <= i < |s| ==> s[i] in s;
  }

  /** Splitting undoes rendering.  Words are not empty and free of blanks and quotes; quoted
      tokens are free of their own quote and may hold anything else; blanks stand between
      two words, and anywhere else as one likes, so that a quote right behind a word
      starts a new token.  At the end a quote may be left open, and then runs to the end. */
  lemma SplitUndoesRendering(items: seq<Item>, end: string, open: string)
    requires forall c :: c in end ==> c in {' ', '\t', '\r', '\n'}
    requires forall i :: 0 <= i < |items| ==> forall c :: c in items[i].space ==> c in {' ', '\t', '\r', '\n'}
    requires forall i :: 0 <= i < |items| && items[i].Word? ==>
               items[i].token != [] && forall c :: c in items[i].token ==> c !in {' ', '\t', '\r', '\n', '\'', '"'}
    requires forall i :: 0 <= i < |items| && items[i].Quoted? ==>
               items[i].q in {'\'', '"'} && items[i].q !in items[i].token
    requires forall i :: 0 <= i < |items| - 1 && items[i].Word? && items[i + 1].Word? ==> items[i + 1].space != []
    requires open != [] ==> open[0] in {'\'', '"'} && open[0] !in open[1..]
    ensures Tokens(Render(items) + (end + open)) == TokensOf(items) + if open == [] then [] else [open[1..]]
  {
    forall i | 0 <= i < |items|
      ensures Spaces(items[i].space) && (items[i].Word? ==> Bare(items[i].token))
    {
      LiteralSpaces(items[i].space);
      if items[i].Word? {
        LiteralBare(items[i].token);
      }
    }
    LiteralSpaces(end);
    RenderThen(items, end + open);
    OpenQuote(end, open);
  }

  /** Every input is such a rendering, so that this says what its tokens are. */
  lemma {:induction false} EveryInputIsRendered(s: string) returns (items: seq<Item>, end: string, open: string)
    ensures s == Render(items) + (end + open)
    ensures AllWritable(items) && Spaces(end) && (open != [] ==> IsQuote(open[0]) && open[0] !in open[1..])
    ensures items != [] && items[0].Word? && items[0].space == [] ==> s != [] && !IsSpace(s[0]) && !IsQuote(s[0])
    decreases |s|
  {
    if s == [] {
      items, end, open := [], [], [];
    } else if IsSpace(s[0]) {
      items, end, open := EveryInputIsRendered(s[1..]);
      items, end := SpaceBefore(s[0], items, end, open);
    } else if IsQuote(s[0]) {
      var x, rest := QuotedPiece(s);
      if x.Some? {
        items, end, open := EveryInputIsRendered(rest);
        items := ItemBefore(x.value, items, end, open);
      } else {
        items, end, open := [], [], s;
      }
    } else {
      var x, rest := WordPiece(s);
      items, end, open := EveryInputIsRendered(rest);
      items := ItemBefore(x, items, end, open);
    }
  }

  /** A quoted token at the start, unless its quote is left open. */
  lemma QuotedPiece(s: string) returns (x: Option<Item>, rest: string)
    requires s != [] && IsQuote(s[0])
    ensures x.None? ==> s[0] !in s[1..]
    ensures x.Some? ==> x.value.Quoted? && x.value.space == [] && IsQuote(x.value.q) && x.value.q !in x.value.token
    ensures x.Some? ==> s == Written(x.value) + rest && |rest| < |s|
  {
    var r, q := s[1..], s[0];
    var n := Span(r, q);
    NoneWithin(r, q);
    if n < |r| {
      x, rest := Some(Quoted([], r[..n], q)), r[n + 1..];
      assert r == r[..n] + [q] + rest;
      assert s == [q] + r;
    } else {
      x, rest := None, [];
      assert r[..n] == r;
    }
  }

  lemma WordPiece(s: string) returns (x: Item, rest: string)
    requires s != [] && !IsSpace(s[0]) && !IsQuote(s[0])
    ensures x.Word? && x.space == [] && x.token != [] && Bare(x.token)
    ensures s == Written(x) + rest && |rest| < |s| && (rest == [] || IsSpace(rest[0]) || IsQuote(rest[0]))
  {
    var w := WordLen(s);
    WordEnds(s);
    WordIsBare(s);
    x, rest := Word([], s[..w]), s[w..];
  }

  lemma SpaceBefore(c: char, items: seq<Item>, end: string, open: string) returns (items': seq<Item>, end': string)
    requires IsSpace(c) && AllWritable(items) && Spaces(end)
    ensures AllWritable(items') && Spaces(end')
    ensures Render(items') + (end' + open) == [c] + (Render(items) + (end + open))
    ensures items' != [] ==> items'[0].space != []
  {
    if items == [] {
      items', end' := items, [c] + end;
      Assoc([c], end, open);
      assert Render(items) + (end + open) == end + open;
      assert Render(items') + (end' + open) == end' + open;
    } else {
      var x := items[0].(space := [c] + items[0].space);
      items', end' := [x] + items[1..], end;
      assert items'[1..] == items[1..];
      Assoc([c], items[0].space, Written(x) + Render(items[1..]));
      Assoc([c], Render(items), end + open);
      assert forall i :: 1 <= i < |items| ==> items'[i] == items[i];
    }
  }

  lemma ItemBefore(x: Item, items: seq<Item>, end: string, open: string) returns (items': seq<Item>)
    requires AllWritable(items) && x.space == []
    requires if x.Word? then x.token != [] && Bare(x.token) else IsQuote(x.q) && x.q !in x.token
    requires x.Word? && items != [] && items[0].Word? ==> items[0].space != []
    ensures items' == [x] + items && AllWritable(items')
    ensures Render(items') + (end + open) == Written(x) + (Render(items) + (end + open))
  {
    items' := [x] + items;
    assert items'[1..] == items && [] + (Written(x) + Render(items)) == Written(x) + Render(items);
    Assoc(Written(x), Render(items), end + open);
    assert forall i :: 1 <= i < |items'| ==> items'[i] == items[i - 1];
  }

  lemma {:induction false} NoneWithin(s: string, q: char)
    ensures q !in s[..Span(s, q)] && (Span(s, q) < |s| ==> s[Span(s, q)] == q)
  {
    if s != [] && s[0] != q {
      NoneWithin(s[1..], q);
      assert s[..Span(s, q)] == [s[0]] + s[1..][..Span(s[1..], q)];
    }
  }

  lemma {:induction false} WordIsBare(s: string)
    ensures Bare(s[..WordLen(s)])
  {
    if s != [] && !IsSpace(s[0]) && !IsQuote(s[0]) {
      WordIsBare(s[1..]);
      assert s[..WordLen(s)] == [s[0]] + s[1..][..WordLen(s[1..])];
    }
  }

  // --- the C function ---

  /** Conversion of a size_t to a 32-bit int. */
  function ToInt(n: nat): int {
    var m := n % 0x1_0000_0000;
    if m > INT_MAX then m - 0x1_0000_0000 else m
  }

  ghost function ModeOf(inws: bool, quotetype: char): Mode {
    if inws then Between else if quotetype == NUL then InWord else InQuotes(quotetype)
  }

  /** dest holds the first starts, as many as there is room for. */
  ghost predicate Recorded(dest: seq<nat>, starts: seq<nat>, room: nat)
    requires room <= |dest|
  {
    dest[..Min(|starts|, room)] == starts[..Min(|starts|, room)]
  }

  lemma RecordedAt(dest: seq<nat>, starts: seq<nat>, room: nat)
    requires room <= |dest| && Recorded(dest, starts, room)
    ensures forall k :: 0 <= k < Min(|starts|, room) ==> dest[k] == starts[k]
  {
    var m := Min(|starts|, room);
    forall k | 0 <= k < m
      ensures dest[k] == starts[k]
    {
      assert dest[..m][k] == starts[..m][k];
    }
  }

  /** Notes one more start, if there is still room for it. */
  method Record(dest: array<nat>, room: nat, n: nat, at: nat, ghost starts: seq<nat>)
    requires room <= dest.Length && n == |starts| && Recorded(dest[..], starts, room)
    modifies dest
    ensures Recorded(dest[..], starts + [at], room)
    ensures forall k :: Min(n + 1, room) <= k < dest.Length ==> dest[k] == old(dest[k])
  {
    if n < room {
      dest[n] := at;
      assert dest[..n + 1] == dest[..n] + [at];
      assert starts[..n] == starts;
    }
  }

  /** What the loop keeps: done is the part cut already, rest the part still to be read. */
  ghost predicate Halfway(s: string, done: string, rest: string, m: Mode, starts: seq<nat>) {
    && Cut(s) == done + CutFrom(m, rest)
    && Starts(s, 0) == starts + StartsFrom(m, rest, |done|)
  }

  lemma HalfwayStep(s: string, done: string, rest: string, m: Mode, starts: seq<nat>)
    requires Halfway(s, done, rest, m, starts) && rest != [] && (m.InQuotes? ==> IsQuote(m.q))
    ensures var c := rest[0];
            Halfway(s, done + [Left(m, c)], rest[1..], NextMode(m, c), starts + Begun(m, c, |done|))
  {
    var c := rest[0];
    CutStep(m, rest);
    MoveOver(Cut(s), done, [Left(m, c)], CutFrom(NextMode(m, c), rest[1..]));
    StartsStep(m, rest, |done|);
    MoveOver(Starts(s, 0), starts, Begun(m, c, |done|), StartsFrom(NextMode(m, c), rest[1..], |done| + 1));
  }

  lemma MoveOver<T>(all: seq<T>, front: seq<T>, x: seq<T>, back: seq<T>)
    requires all == front + (x + back)
    ensures all == (front + x) + back
  {
  }

  lemma Overwritten(b: string, done: string, rest: string, tail: string, x: char)
    requires b == done + (rest + tail) && rest != []
    ensures b[|done|] == rest[0]
    ensures b[|done| := x] == (done + [x]) + (rest[1..] + tail)
  {
  }

  /** The loop: input is cut in place and the starts of the tokens are recorded. */
  method SplitLoop(input: array<char>, dest: array<nat>, room: nat, ghost s: string, ghost tail: string)
    returns (n: nat)
    requires room <= dest.Length && NulFree(s) && input[..] == s + tail && tail != [] && tail[0] == NUL
    modifies input, dest
    ensures n == |Starts(s, 0)| && input[..] == Cut(s) + tail
    ensures Recorded(dest[..], Starts(s, 0), room)
    ensures forall k :: Min(n, room) <= k < dest.Length ==> dest[k] == old(dest[k])
  {
    var quotetype := NUL;
    var inws := true;
    n := 0;
    var i := 0;
    ghost var starts: seq<nat>, done, rest := [], [], s;
    assert [] + (s + tail) == s + tail;
    while input[i] != NUL
      invariant i == |done| && n == |starts| && input[..] == done + (rest + tail) && NulFree(rest)
      invariant (inws ==> quotetype == NUL) && (quotetype == NUL || IsQuote(quotetype))
      invariant Halfway(s, done, rest, ModeOf(inws, quotetype), starts)
      invariant Recorded(dest[..], starts, room)
      invariant forall k :: Min(n, room) <= k < dest.Length ==> dest[k] == old(dest[k])
      decreases |rest|
    {
      ghost var mode := ModeOf(inws, quotetype);
      AtRest(input[..], done, rest, tail);
      HalfwayStep(s, done, rest, mode, starts);
      Overwritten(input[..], done, rest, tail, Left(mode, rest[0]));
      NulFreeDrop(rest, 1);
      n, inws, quotetype := Consume(input, i, dest, room, n, inws, quotetype, starts);
      starts := starts + Begun(mode, rest[0], i);
      done, rest := done + [Left(mode, rest[0])], rest[1..];
      i := i + 1;
    }
    AtRest(input[..], done, rest, tail);
    FinishedCut(done, tail, ModeOf(inws, quotetype));
  }

  lemma AtRest(b: string, done: string, rest: string, tail: string)
    requires b == done + (rest + tail) && tail != [] && tail[0] == NUL && NulFree(rest)
    ensures b[|done|] == (rest + tail)[0]
    ensures b[|done|] == NUL <==> rest == []
  {
  }

  lemma FinishedCut(done: string, tail: string, m: Mode)
    ensures done + CutFrom(m, []) == done && StartsFrom(m, [], |done|) == []
    ensures done + ([] + tail) == done + tail
  {
    var none: string := [];
    NothingLeft(m, none, |done|);
    assert done + none == done;
  }

  lemma NothingLeft(m: Mode, none: string, base: nat)
    requires none == []
    ensures CutFrom(m, none) == [] && StartsFrom(m, none, base) == []
  {
    match m
    case Between =>
    case InWord =>
      assert WordLen(none) == 0 && none[0..] == none;
    case InQuotes(q) =>
      assert Span(none, q) == 0;
  }

  /** The switch: one character of the input. */
  method Consume(input: array<char>, i: nat, dest: array<nat>, room: nat, n: nat, inws: bool, quotetype: char,
                 ghost starts: seq<nat>)
    returns (n': nat, inws': bool, quotetype': char)
    requires i < input.Length && input[i] != NUL && room <= dest.Length && n == |starts|
    requires (inws ==> quotetype == NUL) && (quotetype == NUL || IsQuote(quotetype))
    requires Recorded(dest[..], starts, room)
    modifies input, dest
    ensures var c, mode := old(input[i]), ModeOf(inws, quotetype);
            && input[..] == old(input[..])[i := Left(mode, c)]
            && ModeOf(inws', quotetype') == NextMode(mode, c)
            && n' == |starts + Begun(mode, c, i)|
            && Recorded(dest[..], starts + Begun(mode, c, i), room)
    ensures (inws' ==> quotetype' == NUL) && (quotetype' == NUL || IsQuote(quotetype'))
    ensures forall k :: Min(n', room) <= k < dest.Length ==> dest[k] == old(dest[k])
  {
    n', inws', quotetype' := n, inws, quotetype;
    var c := input[i];
    assert input[..][i := c] == input[..] && starts + [] == starts;
    if c == '\'' || c == '"' {
      if inws {
        quotetype' := c;
        inws' := false;
        Record(dest, room, n, i + 1, starts);
        n' := n + 1;
      } else if quotetype == c {
        quotetype' := NUL;
        inws' := true;
        input[i] := NUL;
      } else if quotetype == NUL {
        quotetype' := c;
        input[i] := NUL;
        Record(dest, room, n, i + 1, starts);
        n' := n + 1;
      }
    } else if c == ' ' || c == '\t' || c == '\r' || c == '\n' {
      if !inws && quotetype == NUL {
        inws' := true;
        input[i] := NUL;
      }
    } else if inws {
      quotetype' := NUL;
      inws' := false;
      Record(dest, room, n, i, starts);
      n' := n + 1;
    }
  }

  /** What the loop leaves: the tokens at the stored positions, and the rest untouched. */
  lemma StoredTokens(b: string, s: string, tail: string, dest: seq<nat>, room: nat)
    requires NulFree(s) && tail != [] && tail[0] == NUL && b == Cut(s) + tail
    requires room <= |dest| && Recorded(dest, Starts(s, 0), room)
    ensures |Starts(s, 0)| == |Tokens(s)| && b[..|s|] == Cut(s) && b[|s|..] == tail
    ensures forall k :: 0 <= k < Min(|Tokens(s)|, room) ==> dest[k] <= |b| && CString(b[dest[k]..]) == Tokens(s)[k]
  {
    var starts := Starts(s, 0);
    assert [NUL] + tail[1..] == tail && b[0..] == b;
    AllPlaced(b, 0, s, tail[1..]);
    PlacedAt(b, starts, Tokens(s));
    RecordedAt(dest, starts, room);
  }

  method SplitQuoted(input: array<char>, dest: array<nat>, destNelem: nat) returns (r: int)
    requires exists k :: 0 <= k < input.Length && input[k] == NUL
    requires destNelem <= dest.Length
    modifies input, dest
    ensures destNelem > INT_MAX ==> r == -1 && input[..] == old(input[..]) && dest[..] == old(dest[..])
    ensures destNelem <= INT_MAX ==>
              var s := CString(old(input[..]));
              var toks := Tokens(s);
              && r == ToInt(|toks|)
              && input[..|s|] == Cut(s)
              && (forall k :: |s| <= k < input.Length ==> input[k] == old(input[k]))
              && (forall k :: 0 <= k < Min(|toks|, destNelem) ==>
                    dest[k] <= input.Length && CString(input[dest[k]..]) == toks[k])
              && (forall k :: Min(|toks|, destNelem) <= k < dest.Length ==> dest[k] == old(dest[k]))
  {
    if destNelem > INT_MAX {
      return -1;
    }
    ghost var s := CString(input[..]);
    CStringMeaning(input[..]);
    TerminatorExists(input[..]);
    ghost var tail := input[|s|..];
    var n := SplitLoop(input, dest, destNelem, s, tail);
    StoredTokens(input[..], s, tail, dest[..], destNelem);
    r := ToInt(n);
  }

  lemma {:induction false} TerminatorExists(b: seq<char>)
    requires exists k :: 0 <= k < |b| && b[k] == NUL
    ensures |CString(b)| < |b|
  {
    if b[0] != NUL {
      var k :| 0 <= k < |b| && b[k] == NUL;
      assert b[1..][k - 1] == NUL;
      TerminatorExists(b[1..]);
    }
  }
}
