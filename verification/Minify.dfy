/** cJSON_Minify: in place, against a function on the text. */
module Minify {
  import opened Bytes
  import opened Json
  import opened PrintSpec
  import opened Numbers

  predicate IsBlank(b: byte) { b == SPACE || b == TAB || b == CR || b == LF }

  /** Bytes behind an opening quote that minify_string takes for the string. */
  function Span(s: Text): (n: nat)
    ensures n <= |s|
  {
    if s == [] then 0
    else if s[0] == QUOTE then 1
    else if s[0] == BACKSLASH && |s| > 1 && s[1] == QUOTE then 2 + Span(s[2..])
    else 1 + Span(s[1..])
  }

  /** Bytes of a line comment behind its slashes. */
  function LineComment(s: Text): (n: nat)
    ensures n <= |s|
  {
    if s == [] then 0 else if s[0] == LF then 1 else 1 + LineComment(s[1..])
  }

  /** Bytes of a block comment behind its opening. */
  function BlockComment(s: Text): (n: nat)
    ensures n <= |s|
  {
    if s == [] then 0 else if s[0] == STAR && |s| > 1 && s[1] == SLASH then 2 else 1 + BlockComment(s[1..])
  }

  /** How many bytes one round of the loop reads, and which of them it keeps. */
  function Read(s: Text): (n: nat)
    requires s != []
    ensures 0 < n <= |s|
  {
    if s[0] == SLASH && |s| > 1 && s[1] == SLASH then 2 + LineComment(s[2..])
    else if s[0] == SLASH && |s| > 1 && s[1] == STAR then 2 + BlockComment(s[2..])
    else if s[0] == QUOTE then 1 + Span(s[1..])
    else 1
  }

  predicate Dropped(b: byte) { IsBlank(b) || b == SLASH }

  function Minified(s: Text): (m: Text)
    ensures |m| <= |s|
  {
    if s == [] then [] else
      var n := Read(s);
      (if Dropped(s[0]) then [] else s[..n]) + Minified(s[n..])
  }

  lemma {:induction false} MinifiedNulFree(s: Text)
    requires NulFree(s)
    ensures NulFree(Minified(s))
    decreases |s|
  {
    if s != [] { MinifiedNulFree(s[Read(s)..]); }
  }

  // ---- The code.

  /** The C string in the buffer. */
  ghost predicate Buffered(b: Text, s: Text) {
    NulFree(s) && |s| < |b| && b[..|s|] == s && b[|s|] == NUL
  }

  /** From `r` on the buffer still is what it was. */
  ghost predicate Unread(b: Text, s: Text, r: nat) {
    r <= |s| < |b| && b[|s|] == NUL && forall k | r <= k < |s| :: s[k] == b[k] && s[k] != NUL
  }

  lemma UnreadBytes(b: Text, s: Text, r: nat)
    requires Unread(b, s, r)
    ensures r < |s| ==> b[r] == s[r] != NUL
    ensures r + 1 < |s| ==> b[r + 1] == s[r + 1] != NUL
    ensures r + 1 == |s| ==> b[r + 1] == NUL
    ensures r == |s| ==> b[r] == NUL
    ensures r <= |s| < |b|
  {
  }

  /** skip_oneline_comment */
  method SkipOnelineComment(json: array<byte>, from: nat, ghost s: Text) returns (r: nat)
    requires Unread(json[..], s, from) && from + 2 <= |s|
    ensures r == from + 2 + LineComment(s[from + 2..])
  {
    UnreadBytes(json[..], s, |s|);
    r := from + 2;
    while json[r] != NUL
      invariant from + 2 <= r <= |s| && r + LineComment(s[r..]) == from + 2 + LineComment(s[from + 2..])
      invariant r < |s| ==> s[r] == json[r] && s[r] != NUL
      decreases |s| - r
    {
      assert r < |s| && s[r..][0] == s[r] && s[r..][1..] == s[r + 1..];
      if json[r] == LF {
        r := r + 1;
        return;
      }
      r := r + 1;
    }
  }

  /** skip_multiline_comment */
  method SkipMultilineComment(json: array<byte>, from: nat, ghost s: Text) returns (r: nat)
    requires Unread(json[..], s, from) && from + 2 <= |s|
    ensures r == from + 2 + BlockComment(s[from + 2..])
  {
    UnreadBytes(json[..], s, |s|);
    r := from + 2;
    while json[r] != NUL
      invariant from + 2 <= r <= |s| && r + BlockComment(s[r..]) == from + 2 + BlockComment(s[from + 2..])
      invariant r < |s| ==> s[r] == json[r] && s[r] != NUL
      decreases |s| - r
    {
      assert r < |s| && s[r..][0] == s[r] && s[r..][1..] == s[r + 1..];
      assert r + 1 < |s| ==> s[r..][1] == s[r + 1];
      if json[r] == STAR && json[r + 1] == SLASH {
        r := r + 2;
        return;
      }
      r := r + 1;
    }
  }

  /** What the loop of minify_string does with the next byte, or with a backslash and a quote. */
  lemma SpanStep(s: Text, r: nat)
    requires r < |s|
    ensures Span(s[r..]) ==
      if s[r] == QUOTE then 1
      else if s[r] == BACKSLASH && r + 1 < |s| && s[r + 1] == QUOTE then 2 + Span(s[r + 2..])
      else 1 + Span(s[r + 1..])
  {
    var t := s[r..];
    assert t[0] == s[r] && t[1..] == s[r + 1..];
    if |t| > 1 { assert t[1] == s[r + 1] && t[2..] == s[r + 2..]; }
  }

  /** minify_string */
  method MinifyString(json: array<byte>, from: nat, to: nat, ghost s: Text) returns (r: nat, w: nat)
    requires Unread(json[..], s, from) && to <= from < |s|
    modifies json
    ensures r == from + 1 + Span(s[from + 1..]) && w <= r && Unread(json[..], s, r)
    ensures json[..w] == old(json[..to]) + s[from..r]
  {
    hide Span, Unread;
    UnreadBytes(json[..], s, from);
    ghost var done := json[..to];
    r, w := CopyByte(json, from, to, from, done, s);
    while json[r] != NUL
      invariant from < r <= |s| && w <= r && Unread(json[..], s, r)
      invariant r + Span(s[r..]) == from + 1 + Span(s[from + 1..])
      invariant json[..w] == done + s[from..r]
      decreases |s| - r
    {
      UnreadBytes(json[..], s, r);
      SpanStep(s, r);
      if json[r] == QUOTE {
        r, w := CopyByte(json, r, w, from, done, s);
        return;
      } else if json[r] == BACKSLASH && json[r + 1] == QUOTE {
        r, w := CopyByte(json, r, w, from, done, s);
        UnreadBytes(json[..], s, r);
      }
      r, w := CopyByte(json, r, w, from, done, s);
      UnreadBytes(json[..], s, r);
    }
    UnreadBytes(json[..], s, r);
    SpanEmpty();
    assert s[|s|..] == [];
  }

  lemma SpanEmpty()
    ensures Span([]) == 0
  {
  }

  /** Copies one byte down and steps over it. */
  method CopyByte(json: array<byte>, from: nat, to: nat, ghost start: nat, ghost done: Text,
      ghost s: Text) returns (r: nat, w: nat)
    requires Unread(json[..], s, from) && to <= from < |s| && start <= from
    requires json[..to] == done + s[start..from]
    modifies json
    ensures r == from + 1 && w == to + 1 && Unread(json[..], s, r) && json[..w] == done + s[start..r]
  {
    assert json[from] == s[from] && s[start..from + 1] == s[start..from] + [s[from]];
    json[to] := json[from];
    assert json[..to + 1] == json[..to] + [s[from]];
    r, w := from + 1, to + 1;
  }

  /** cJSON_Minify: the write position never passes the read position. */
  method MinifyInPlace(json: array<byte>, ghost s: Text)
    requires Buffered(json[..], s)
    modifies json
    ensures CString(json[..]) == Minified(s)
  {
    hide Unread, Minified;
    var r, w := 0, 0;
    BufferedUnread(json[..], s);
    assert s[0..] == s && json[..0] + Minified(s) == Minified(s);
    while json[r] != NUL
      invariant 0 <= w <= r <= |s| && Unread(json[..], s, r)
      invariant json[..w] + Minified(s[r..]) == Minified(s)
      decreases |s| - r
    {
      UnreadBytes(json[..], s, r);
      r, w := MinifyRound(json, r, w, s);
      UnreadBytes(json[..], s, r);
    }
    UnreadBytes(json[..], s, r);
    MinifiedNulFree(s);
    MinifiedEmpty(s[r..]);
    assert json[..w] + [] == json[..w];
    json[w] := NUL;
    CStringOfTerminated(json[..w], json[w + 1..]);
    assert json[..] == json[..w] + [NUL] + json[w + 1..];
  }

  lemma BufferedUnread(b: Text, s: Text)
    requires Buffered(b, s)
    ensures Unread(b, s, 0)
  {
    assert forall k | 0 <= k < |s| :: s[k] == b[..|s|][k];
  }

  lemma {:induction false} MinifiedEmpty(s: Text)
    requires s == []
    ensures Minified(s) == []
  {
  }

  lemma MinifiedStep(s: Text, from: nat, r: nat)
    requires from < |s| && r == from + Read(s[from..])
    ensures r <= |s| && Minified(s[from..]) == (if Dropped(s[from]) then [] else s[from..r]) + Minified(s[r..])
  {
    assert s[from..][r - from..] == s[r..] && s[from..][..r - from] == s[from..r];
  }

  lemma ReadCases(s: Text, from: nat)
    requires from < |s|
    ensures Read(s[from..]) ==
      if s[from] == SLASH && from + 1 < |s| && s[from + 1] == SLASH then 2 + LineComment(s[from + 2..])
      else if s[from] == SLASH && from + 1 < |s| && s[from + 1] == STAR then 2 + BlockComment(s[from + 2..])
      else if s[from] == QUOTE then 1 + Span(s[from + 1..])
      else 1
  {
    var t := s[from..];
    assert t[0] == s[from] && t[1..] == s[from + 1..];
    if |t| > 1 { assert t[1] == s[from + 1] && t[2..] == s[from + 2..]; }
  }

  /** One round of the loop. */
  method MinifyRound(json: array<byte>, from: nat, to: nat, ghost s: Text) returns (r: nat, w: nat)
    requires Unread(json[..], s, from) && to <= from < |s|
    modifies json
    ensures from < r <= |s| && w <= r && Unread(json[..], s, r)
    ensures json[..w] + Minified(s[r..]) == old(json[..to]) + Minified(s[from..])
  {
    hide Read, LineComment, BlockComment, Span, Minified, Unread;
    UnreadBytes(json[..], s, from);
    ReadCases(s, from);
    ghost var done := json[..to];
    MinifiedStep(s, from, from + Read(s[from..]));
    r, w := from, to;
    var b := json[from];
    if b == SPACE || b == TAB || b == CR || b == LF {
      r := r + 1;
    } else if b == SLASH {
      if json[from + 1] == SLASH {
        r := SkipOnelineComment(json, from, s);
      } else if json[from + 1] == STAR {
        r := SkipMultilineComment(json, from, s);
      } else {
        r := r + 1;
      }
    } else if b == QUOTE {
      r, w := MinifyString(json, from, to, s);
    } else {
      assert done + s[from..from] == done;
      r, w := CopyByte(json, from, to, from, done, s);
    }
    UnreadLater(json[..], s, from, r);
    ghost var kept := if Dropped(s[from]) then [] else s[from..r];
    assert done + [] == done;
    assert (done + kept) + Minified(s[r..]) == done + (kept + Minified(s[r..]));
  }

  lemma UnreadLater(b: Text, s: Text, from: nat, r: nat)
    requires from <= r <= |s|
    ensures Unread(b, s, from) ==> Unread(b, s, r)
  {
  }

  // ---- Minifying twice is minifying once.

  /** The string that starts behind the quote is closed. */
  predicate Closed(s: Text) {
    s != [] && (s[0] == QUOTE
      || if s[0] == BACKSLASH && |s| > 1 && s[1] == QUOTE then Closed(s[2..]) else Closed(s[1..]))
  }

  /** A closed string is read the same whatever follows it, an open one takes all the text. */
  lemma {:induction false} SpanClosed(s: Text, t: Text)
    ensures Closed(s) ==> Span(s[..Span(s)] + t) == Span(s)
    ensures !Closed(s) ==> Span(s) == |s|
    decreases |s|
  {
    if s != [] && s[0] != QUOTE {
      var k := if s[0] == BACKSLASH && |s| > 1 && s[1] == QUOTE then 2 else 1;
      var u := s[k..];
      SpanClosed(u, t);
      if Closed(s) {
        var n, x := Span(u), s[..Span(s)] + t;
        assert Closed(u) && Span(s) == k + n;
        assert s[..k + n][k..] == u[..n];
        assert x[0] == s[0] && x[k..] == u[..n] + t && (n > 0 ==> x[k] == u[0]);
        assert n > 0;
      }
    }
  }

  /** Bytes that are kept one by one. */
  predicate Ordinary(a: Text) { forall i :: 0 <= i < |a| ==> !Dropped(a[i]) && a[i] != QUOTE }

  lemma {:induction false} Unfold(s: Text)
    ensures Minified(s) == if s == [] then [] else (if Dropped(s[0]) then [] else s[..Read(s)]) + Minified(s[Read(s)..])
  {
  }

  lemma ReadOne(s: Text)
    requires s != [] && s[0] != SLASH && s[0] != QUOTE
    ensures Read(s) == 1
  {
  }

  lemma {:induction false} KeepsOrdinary(a: Text, t: Text)
    requires Ordinary(a)
    ensures Minified(a + t) == a + Minified(t)
    decreases |a|
  {
    hide Minified, Read;
    var x := a + t;
    if a == [] {
      assert x == t;
    } else {
      KeepsOrdinary(a[1..], t);
      assert x[0] == a[0] && x[1..] == a[1..] + t && x[..1] == [a[0]];
      ReadOne(x);
      Unfold(x);
      assert [a[0]] + (a[1..] + Minified(t)) == a + Minified(t);
    }
  }

  lemma {:induction false} DropsBlanks(a: Text, t: Text)
    requires forall i :: 0 <= i < |a| ==> IsBlank(a[i])
    ensures Minified(a + t) == Minified(t)
    decreases |a|
  {
    hide Minified, Read;
    var x := a + t;
    if a == [] {
      assert x == t;
    } else {
      DropsBlanks(a[1..], t);
      assert x[0] == a[0] && x[1..] == a[1..] + t;
      ReadOne(x);
      Unfold(x);
      assert [] + Minified(t) == Minified(t);
    }
  }

  /** A quote and what it opens are kept as they are. */
  lemma {:induction false} KeepsString(q: Text, t: Text)
    requires q != [] && q[0] == QUOTE && Span(q[1..] + t) == |q| - 1
    ensures Minified(q + t) == q + Minified(t)
  {
    hide Minified, Span;
    var x := q + t;
    assert x[0] == QUOTE && x[1..] == q[1..] + t;
    Unfold(x);
    assert x[..|q|] == q && x[|q|..] == t;
  }

  /** What a round keeps is kept again, in front of any text if it is closed. */
  lemma {:induction false} KeptAgain(s: Text, t: Text)
    requires s != [] && !Dropped(s[0]) && (Read(s) == |s| ==> t == [])
    ensures Minified(s[..Read(s)] + t) == s[..Read(s)] + Minified(t)
  {
    hide Minified, Span, Closed;
    var n := Read(s);
    var q := s[..n];
    if s[0] != QUOTE {
      KeepsOrdinary(q, t);
    } else {
      SpanClosed(s[1..], t);
      assert q[1..] == s[1..][..n - 1];
      if !Closed(s[1..]) {
        assert q[1..] + t == s[1..];
      }
      KeepsString(q, t);
    }
  }

  lemma {:induction false} Idempotent(s: Text)
    ensures Minified(Minified(s)) == Minified(s)
    decreases |s|
  {
    hide Minified, Read;
    Unfold(s);
    if s != [] {
      var rest := s[Read(s)..];
      Idempotent(rest);
      if Dropped(s[0]) {
        assert [] + Minified(rest) == Minified(rest);
      } else {
        Unfold([]);
        KeptAgain(s, Minified(rest));
      }
    }
  }

  // ---- Formatted text becomes unformatted text.

  predicate EndsInBackslash(s: Text) { s != [] && s[|s| - 1] == BACKSLASH }

  /**
   * minify_string stops right behind a printed string, unless the string ends in a
   * backslash: then it takes the closing quote for an escaped one and runs on.
   */
  lemma {:induction false} SpanOfPrinted(s: Text, t: Text)
    requires NulFree(s)
    ensures Span(EscapedText(s) + ([QUOTE] + t)) == |EscapedText(s)| + 1 + if EndsInBackslash(s) then Span(t) else 0
    decreases |s|
  {
    var x := EscapedText(s) + ([QUOTE] + t);
    if s == [] {
      assert x[0] == QUOTE;
    } else {
      hide Span;
      var r := EscapedText(s[1..]) + ([QUOTE] + t);
      SpanOfPrinted(s[1..], t);
      assert x == Escaped(s[0]) + r;
      if s[0] == BACKSLASH && |s| == 1 {
        assert EscapedText(s[1..]) == [] && r == [QUOTE] + t;
        SpanSlashQuote(x, t);
      } else {
        assert |s| > 1 ==> r[0] == Escaped(s[1])[0] && s[1..][|s| - 2] == s[|s| - 1];
        SpanEscape(s[0], r);
      }
    }
  }

  /** An escaped backslash and the closing quote are read as a backslash and an escaped quote. */
  lemma {:induction false} SpanSlashQuote(x: Text, t: Text)
    requires x == [BACKSLASH, BACKSLASH] + ([QUOTE] + t)
    ensures Span(x) == 3 + Span(t)
  {
    var y := x[1..];
    assert x[1] == BACKSLASH && y[0] == BACKSLASH && y[1] == QUOTE && y[2..] == t;
  }

  lemma {:induction false} SpanEscape(b: byte, r: Text)
    requires b != NUL && (b == BACKSLASH ==> r != [] && r[0] != QUOTE)
    ensures Span(Escaped(b) + r) == |Escaped(b)| + Span(r)
  {
    var e := Escaped(b);
    var x := e + r;
    if b == BACKSLASH {
      var y := x[1..];
      assert x[1] == BACKSLASH && y[0] == BACKSLASH && y[1] == r[0] && y[1..] == r;
    } else if b == QUOTE {
      assert x[1] == QUOTE && x[2..] == r;
    } else {
      hide Span;
      SpanPlain(e, r);
    }
  }

  /** Escapes without quotes or doubled backslashes are read byte by byte. */
  lemma {:induction false} SpanPlain(e: Text, r: Text)
    requires e != [] && (e[0] == BACKSLASH ==> |e| > 1)
    requires forall i :: 0 <= i < |e| ==> e[i] != QUOTE && (i > 0 ==> e[i] != BACKSLASH)
    ensures Span(e + r) == |e| + Span(r)
    decreases |e|
  {
    var x := e + r;
    assert x[0] == e[0] && x[1..] == e[1..] + r;
    if |e| == 1 {
      assert x[1..] == r;
    } else {
      assert x[1] == e[1];
      SpanPlain(e[1..], r);
    }
  }

  lemma {:induction false} KeepsQuoted(s: Text, t: Text)
    requires NulFree(s) && !EndsInBackslash(s)
    ensures Minified(Quoted(s) + t) == Quoted(s) + Minified(t)
  {
    hide EscapedText, Span, Minified;
    SpanOfPrinted(s, t);
    var q := Quoted(s);
    assert q[1..] + t == EscapedText(s) + ([QUOTE] + t);
    KeepsString(q, t);
  }

  /** Behind a string that ends in a backslash everything up to the next quote is kept. */
  lemma {:induction false} RunsOn(s: Text, t: Text)
    requires NulFree(s) && EndsInBackslash(s)
    ensures Minified(Quoted(s) + t) == Quoted(s) + t[..Span(t)] + Minified(t[Span(t)..])
  {
    hide EscapedText, Span, Minified;
    SpanOfPrinted(s, t);
    var q, n := Quoted(s), Span(t);
    var x := q + t[..n];
    assert q + t == x + t[n..];
    assert x[1..] + t[n..] == EscapedText(s) + ([QUOTE] + t);
    KeepsString(x, t[n..]);
  }

  /** No string and no key ends in a backslash. */
  predicate Clean(t: Tree) {
    match t
    case Str(s) => !EndsInBackslash(s)
    case Arr(items) => forall i :: 0 <= i < |items| ==> Clean(items[i])
    case Obj(ms) => forall i :: 0 <= i < |ms| ==> !EndsInBackslash(ms[i].key) && Clean(ms[i].value)
    case _ => true
  }

  /** The same but for the very last string, with nothing but closing brackets of arrays behind it. */
  predicate CleanBut(t: Tree) {
    match t
    case Str(_) => true
    case Arr(items) => CleanButLast(items)
    case _ => Clean(t)
  }

  predicate CleanButLast(items: seq<Tree>) {
    items != [] ==>
      (forall i :: 0 <= i < |items| - 1 ==> Clean(items[i])) && CleanBut(items[|items| - 1])
  }

  /** Whatever follows, minifying turns `a` into `b` and goes on behind it. */
  ghost predicate Turns(a: Text, b: Text) {
    forall t {:trigger Minified(a + t)} :: Minified(a + t) == b + Minified(t)
  }

  /** The same, but what follows up to the next quote is taken for part of a string. */
  ghost predicate Hangs(a: Text, b: Text) {
    forall t {:trigger Minified(a + t)} :: Minified(a + t) == b + (t[..Span(t)] + Minified(t[Span(t)..]))
  }

  /** Whatever follows, minifying does not give a text that starts with `b`. */
  ghost predicate Diverges(a: Text, b: Text) {
    forall t {:trigger Minified(a + t)} :: !(b <= Minified(a + t))
  }

  /** What becomes of `a`, given whether all its strings, or all but the last, end well. */
  ghost predicate Becomes(clean: bool, but: bool, a: Text, b: Text) {
    if clean then Turns(a, b) else if but then Hangs(a, b) else Diverges(a, b)
  }

  lemma Behind(a: Text, b: Text, c: Text, d: Text, clean: bool, but: bool)
    requires Turns(a, b) && Becomes(clean, but, c, d)
    ensures Becomes(clean, but, a + c, b + d)
  {
    hide Minified, Span;
    forall t ensures Minified((a + c) + t) == b + Minified(c + t) {
      assert (a + c) + t == a + (c + t);
      assert Minified(a + (c + t)) == b + Minified(c + t);
    }
    if clean {
      forall t ensures Minified((a + c) + t) == (b + d) + Minified(t) {
        assert b + (d + Minified(t)) == (b + d) + Minified(t);
      }
    } else if but {
      forall t ensures Minified((a + c) + t) == (b + d) + (t[..Span(t)] + Minified(t[Span(t)..])) {
        var r := t[..Span(t)] + Minified(t[Span(t)..]);
        assert Minified(c + t) == d + r && b + (d + r) == (b + d) + r;
      }
    } else {
      forall t ensures !(b + d <= Minified((a + c) + t)) { PrefixBehind(b, d, Minified(c + t)); }
    }
  }

  lemma PrefixBehind(b: Text, d: Text, m: Text)
    ensures b + d <= b + m ==> d <= m
  {
    if b + d <= b + m { assert (b + m)[..|b + d|][|b|..] == m[..|d|] && (b + d)[|b|..] == d; }
  }

  lemma Compose(a: Text, b: Text, c: Text, d: Text)
    requires Turns(a, b) && Turns(c, d)
    ensures Turns(a + c, b + d)
  {
    hide Turns;
    Behind(a, b, c, d, true, true);
  }

  lemma DivergesMore(a: Text, b: Text, c: Text, d: Text)
    requires Diverges(a, b)
    ensures Diverges(a + c, b + d)
  {
    hide Minified;
    forall t ensures !(b + d <= Minified((a + c) + t)) {
      assert (a + c) + t == a + (c + t);
      var m := Minified(a + (c + t));
      assert !(b <= m) && b <= b + d;
    }
  }

  /** Bytes that neither close a string nor start an escape. */
  predicate Inert(p: Text) { forall i :: 0 <= i < |p| ==> p[i] != QUOTE && p[i] != BACKSLASH }

  lemma {:induction false} SpanInert(p: Text, t: Text)
    requires Inert(p)
    ensures Span(p + t) == |p| + Span(t)
  {
    hide Span;
    if p == [] { assert p + t == t; } else { SpanPlain(p, t); }
  }

  lemma HangsOver(a: Text, b: Text, p: Text)
    requires Hangs(a, b) && Inert(p)
    ensures Hangs(a + p, b + p)
  {
    hide Minified, Span, Inert;
    forall t ensures Minified((a + p) + t) == (b + p) + (t[..Span(t)] + Minified(t[Span(t)..])) {
      var u, n := p + t, Span(t);
      SpanInert(p, t);
      assert (a + p) + t == a + u;
      assert Minified(a + u) == b + (u[..Span(u)] + Minified(u[Span(u)..]));
      assert u[..Span(u)] == p + t[..n] && u[Span(u)..] == t[n..];
      assert b + ((p + t[..n]) + Minified(t[n..])) == (b + p) + (t[..n] + Minified(t[n..]));
    }
  }

  /** A blank that only the formatted text has is kept where a string hangs. */
  lemma HangsApart(a: Text, b: Text, p: Text, x: Text, y: Text)
    requires Hangs(a, b) && Inert(p) && x != [] && Inert(x[..1]) && y != [] && x[0] != y[0]
    ensures Diverges(a + (p + x), b + (p + y))
  {
    hide Minified, Span, Inert;
    HangsOver(a, b, p);
    HangsOver(a + p, b + p, x[..1]);
    forall t ensures !(b + (p + y) <= Minified((a + (p + x)) + t)) {
      var v := x[1..] + t;
      var rest := v[..Span(v)] + Minified(v[Span(v)..]);
      assert (a + (p + x)) + t == ((a + p) + x[..1]) + v;
      var m := Minified(((a + p) + x[..1]) + v);
      assert m == ((b + p) + x[..1]) + rest;
      assert m[|b| + |p|] == x[0] && (b + (p + y))[|b| + |p|] == y[0];
    }
  }

  lemma TurnsOrdinary(a: Text)
    requires Ordinary(a)
    ensures Turns(a, a)
  {
    hide Minified;
    forall t ensures Minified(a + t) == a + Minified(t) { KeepsOrdinary(a, t); }
  }

  /** Blanks that only formatted output has. */
  lemma TurnsWhen(a: Text)
    requires forall i :: 0 <= i < |a| ==> IsBlank(a[i])
    ensures Turns(When(true, a), When(false, a))
  {
    hide Minified;
    forall t ensures Minified(a + t) == [] + Minified(t) { DropsBlanks(a, t); }
  }

  lemma BecomesQuoted(s: Text)
    requires NulFree(s)
    ensures Becomes(!EndsInBackslash(s), true, Quoted(s), Quoted(s))
  {
    hide Minified, Span, Quoted;
    forall t
      ensures if EndsInBackslash(s)
        then Minified(Quoted(s) + t) == Quoted(s) + (t[..Span(t)] + Minified(t[Span(t)..]))
        else Minified(Quoted(s) + t) == Quoted(s) + Minified(t)
    {
      if EndsInBackslash(s) { RunsOn(s, t); } else { KeepsQuoted(s, t); }
    }
  }

  /** Minifying the formatted text of a value gives its unformatted text exactly for these values. */
  lemma {:induction false} MinifyFormatted(t: Tree)
    requires Plain(t)
    ensures Minified(Print(t, true, 0)) == Print(t, false, 0) <==> Clean(t) || CleanBut(t)
  {
    hide Print, Minified, Plain, Clean, CleanBut;
    BecomesTree(t, 0);
    MinifiedEmpty([]);
    SpanEmpty();
    var a, b := Print(t, true, 0), Print(t, false, 0);
    assert a + [] == a && b + [] == b && b + ([][..0] + []) == b;
    assert Minified(a + []) == Minified(a);
  }

  lemma {:induction false} BecomesTree(t: Tree, depth: nat)
    requires Plain(t)
    ensures Becomes(Clean(t), CleanBut(t), Print(t, true, depth), Print(t, false, depth))
    decreases t
  {
    hide Turns, Hangs, Diverges;
    if t.Null? {
      TurnsOrdinary(NULL_WORD);
    } else if t.Bool? {
      TurnsOrdinary(if t.b then TRUE_WORD else FALSE_WORD);
    } else if t.Num? {
      TurnsOrdinary(Decimal(t.value.Floor));
    } else if t.Str? {
      BecomesQuoted(t.s);
    } else if t.Arr? {
      var a, b := PrintItems(t.items, true, depth + 1), PrintItems(t.items, false, depth + 1);
      TurnsOrdinary([LBRACKET]);
      BecomesItems(t.items, depth + 1);
      Behind([LBRACKET], [LBRACKET], a, b, Clean(t), CleanBut(t));
    } else {
      var a, b := PrintMembers(t.members, true, depth + 1), PrintMembers(t.members, false, depth + 1);
      TurnsOrdinary([LBRACE]);
      TurnsWhen([LF]);
      BecomesMembers(t.members, depth + 1);
      Behind(When(true, [LF]), When(false, [LF]), a, b, Clean(t), false);
      Behind([LBRACE], [LBRACE], When(true, [LF]) + a, When(false, [LF]) + b, Clean(t), false);
    }
  }

  predicate CleanItems(items: seq<Tree>) { forall i :: 0 <= i < |items| ==> Clean(items[i]) }

  lemma {:induction false} CleanHead(items: seq<Tree>)
    requires items != []
    ensures CleanItems(items) <==> Clean(items[0]) && CleanItems(items[1..])
    ensures CleanButLast(items) <==>
      if |items| == 1 then CleanBut(items[0]) else Clean(items[0]) && CleanButLast(items[1..])
  {
    hide Clean, CleanBut;
    assert items == [items[0]] + items[1..];
    assert forall i | 0 < i < |items| :: items[i] == items[1..][i - 1];
  }

  lemma {:induction false} BecomesItems(items: seq<Tree>, depth: nat)
    requires forall i :: 0 <= i < |items| ==> Plain(items[i])
    ensures Becomes(CleanItems(items), CleanButLast(items),
      PrintItems(items, true, depth), PrintItems(items, false, depth))
    decreases items
  {
    hide Turns, Hangs, Diverges, Becomes, Print, Plain, Clean, CleanBut;
    if items == [] {
      TurnsOrdinary([RBRACKET]);
      BecomesTurns(CleanButLast(items), [RBRACKET], [RBRACKET]);
    } else {
      hide CleanItems, CleanButLast;
      BecomesTree(items[0], depth);
      CleanHead(items);
      if |items| == 1 {
        assert items[1..] == [];
        CleanNone();
        BecomesClosed(Clean(items[0]), CleanBut(items[0]), Print(items[0], true, depth), Print(items[0], false, depth));
      } else {
        BecomesItems(items[1..], depth);
        BecomesFirst(items, depth);
      }
    }
  }

  lemma CleanNone()
    ensures CleanItems([]) && CleanButLast([])
  {
  }

  lemma BecomesTurns(but: bool, a: Text, b: Text)
    requires Turns(a, b)
    ensures Becomes(true, but, a, b)
  {
    hide Turns;
  }

  lemma BecomesClosed(clean: bool, but: bool, a: Text, b: Text)
    requires Becomes(clean, but, a, b)
    ensures Becomes(clean, but, a + ([] + [RBRACKET]), b + ([] + [RBRACKET]))
  {
    hide Turns, Hangs, Diverges;
    assert [] + [RBRACKET] == [RBRACKET];
    if clean {
      TurnsOrdinary([RBRACKET]);
      Compose(a, b, [RBRACKET], [RBRACKET]);
    } else if but {
      HangsOver(a, b, [RBRACKET]);
    } else {
      DivergesMore(a, b, [RBRACKET], [RBRACKET]);
    }
  }

  /** An item with a comma behind it. */
  lemma {:induction false} BecomesFirst(items: seq<Tree>, depth: nat)
    requires |items| > 1 && Plain(items[1])
    requires Becomes(Clean(items[0]), CleanBut(items[0]), Print(items[0], true, depth), Print(items[0], false, depth))
    requires Becomes(CleanItems(items[1..]), CleanButLast(items[1..]),
      PrintItems(items[1..], true, depth), PrintItems(items[1..], false, depth))
    ensures Becomes(Clean(items[0]) && CleanItems(items[1..]), Clean(items[0]) && CleanButLast(items[1..]),
      PrintItems(items, true, depth), PrintItems(items, false, depth))
  {
    hide Turns, Hangs, Diverges, Print, Plain, Clean, CleanBut, CleanItems, CleanButLast;
    var a, b := Print(items[0], true, depth), Print(items[0], false, depth);
    var c, d := PrintItems(items[1..], true, depth), PrintItems(items[1..], false, depth);
    if Clean(items[0]) {
      var clean, but := CleanItems(items[1..]), CleanButLast(items[1..]);
      TurnsSeparator();
      Behind([COMMA, SPACE], [COMMA], c, d, clean, but);
      Behind(a, b, [COMMA, SPACE] + c, [COMMA] + d, clean, but);
    } else if CleanBut(items[0]) {
      PrintStarts(items[1], depth);
      assert d[0] == Print(items[1], false, depth)[0];
      assert [COMMA] + ([SPACE] + c) == [COMMA, SPACE] + c;
      HangsApart(a, b, [COMMA], [SPACE] + c, d);
    } else {
      DivergesMore(a, b, [COMMA, SPACE] + c, [COMMA] + d);
    }
    assert [COMMA] + [SPACE] == [COMMA, SPACE] && [COMMA] + [] == [COMMA];
    assert Separator(true, true) == [COMMA, SPACE] && Separator(true, false) == [COMMA];
    assert PrintItems(items, true, depth) == a + ([COMMA, SPACE] + c);
    assert PrintItems(items, false, depth) == b + ([COMMA] + d);
  }

  lemma TurnsSeparator()
    ensures Turns([COMMA, SPACE], [COMMA])
  {
    hide Turns;
    TurnsOrdinary([COMMA]);
    TurnsWhen([SPACE]);
    Compose([COMMA], [COMMA], When(true, [SPACE]), When(false, [SPACE]));
    assert [COMMA] + [SPACE] == [COMMA, SPACE] && [COMMA] + [] == [COMMA];
  }

  /** Printed values start with no blank. */
  lemma {:induction false} PrintStarts(t: Tree, depth: nat)
    requires Plain(t)
    ensures Print(t, false, depth)[0] > SPACE
  {
    hide Plain;
  }

  predicate CleanMembers(ms: seq<Member>) {
    forall i :: 0 <= i < |ms| ==> !EndsInBackslash(ms[i].key) && Clean(ms[i].value)
  }

  lemma CleanMember(ms: seq<Member>)
    requires ms != []
    ensures CleanMembers(ms) <==>
      !EndsInBackslash(ms[0].key) && Clean(ms[0].value) && CleanMembers(ms[1..])
  {
    hide Clean;
    assert ms == [ms[0]] + ms[1..];
    assert forall i | 0 < i < |ms| :: ms[i] == ms[1..][i - 1];
  }

  lemma {:induction false} BecomesMembers(ms: seq<Member>, depth: nat)
    requires depth > 0
    requires forall i :: 0 <= i < |ms| ==> NulFree(ms[i].key) && Plain(ms[i].value)
    ensures Becomes(CleanMembers(ms), false, PrintMembers(ms, true, depth), PrintMembers(ms, false, depth))
    decreases ms
  {
    hide Turns, Hangs, Diverges, Becomes, Print, PrintMember, EndOfMember, Plain, Clean;
    if ms == [] {
      TurnsWhen(Tabs(depth - 1));
      TurnsOrdinary([RBRACE]);
      Compose(When(true, Tabs(depth - 1)), When(false, Tabs(depth - 1)), [RBRACE], [RBRACE]);
      BecomesTurns(false, When(true, Tabs(depth - 1)) + [RBRACE], When(false, Tabs(depth - 1)) + [RBRACE]);
    } else {
      hide CleanMembers;
      CleanMember(ms);
      BecomesTree(ms[0].value, depth);
      BecomesMember(ms[0], depth);
      BecomesMembers(ms[1..], depth);
      var a, b := PrintMember(ms[0], true, depth), PrintMember(ms[0], false, depth);
      var more, v := |ms| > 1, ms[0].value;
      var clean := !EndsInBackslash(ms[0].key) && Clean(v);
      var but := !EndsInBackslash(ms[0].key) && CleanBut(v);
      MembersStart(ms[1..], depth);
      BecomesEnded(clean, but, CleanMembers(ms[1..]), more, a, b, PrintMembers(ms[1..], true, depth),
        PrintMembers(ms[1..], false, depth));
    }
  }

  lemma {:induction false} MembersStart(ms: seq<Member>, depth: nat)
    requires depth > 0
    ensures PrintMembers(ms, false, depth)[0] > SPACE
  {
    hide Print, EscapedText;
  }

  /** A member, the line feed of formatted output, and the members behind it. */
  lemma BecomesEnded(clean: bool, but: bool, after: bool, more: bool,
      a: Text, b: Text, c: Text, d: Text)
    requires Becomes(clean, but, a, b) && Becomes(after, false, c, d) && d != [] && d[0] > SPACE
    ensures Becomes(clean && after, false, a + (EndOfMember(more, true) + c), b + (EndOfMember(more, false) + d))
  {
    hide Turns, Hangs, Diverges;
    var comma := if more then [COMMA] else [];
    var x, y := EndOfMember(more, true), EndOfMember(more, false);
    assert x + c == comma + ([LF] + c) && y == comma;
    if clean {
      TurnsEnd(more);
      Behind(x, y, c, d, after, false);
      Behind(a, b, x + c, y + d, after, false);
    } else if but {
      HangsApart(a, b, comma, [LF] + c, d);
    } else {
      DivergesMore(a, b, x + c, y + d);
    }
  }

  lemma TurnsEnd(more: bool)
    ensures Turns(EndOfMember(more, true), EndOfMember(more, false))
  {
    hide Turns;
    var comma := if more then [COMMA] else [];
    TurnsOrdinary(comma);
    TurnsWhen([LF]);
    Compose(comma, comma, When(true, [LF]), When(false, [LF]));
  }

  lemma {:induction false} BecomesMember(m: Member, depth: nat)
    requires depth > 0 && NulFree(m.key) && Plain(m.value)
    requires Becomes(Clean(m.value), CleanBut(m.value), Print(m.value, true, depth), Print(m.value, false, depth))
    ensures Becomes(!EndsInBackslash(m.key) && Clean(m.value), !EndsInBackslash(m.key) && CleanBut(m.value),
      PrintMember(m, true, depth), PrintMember(m, false, depth))
  {
    hide Turns, Hangs, Diverges, Print, Quoted, EndsInBackslash, Clean, CleanBut, Plain;
    var q, v, u := Quoted(m.key), Print(m.value, true, depth), Print(m.value, false, depth);
    var clean, but := !EndsInBackslash(m.key) && Clean(m.value), !EndsInBackslash(m.key) && CleanBut(m.value);
    var c, d := [COLON] + When(true, [TAB]), [COLON] + When(false, [TAB]);
    TurnsWhen(Tabs(depth));
    BecomesQuoted(m.key);
    if EndsInBackslash(m.key) {
      PrintStarts(m.value, depth);
      assert c + v == [COLON] + ([TAB] + v) && d + u == [COLON] + u;
      HangsApart(q, q, [COLON], [TAB] + v, u);
    } else {
      TurnsOrdinary([COLON]);
      TurnsWhen([TAB]);
      Compose([COLON], [COLON], When(true, [TAB]), When(false, [TAB]));
      Behind(c, d, v, u, clean, but);
      Behind(q, q, c + v, d + u, clean, but);
    }
    Behind(When(true, Tabs(depth)), When(false, Tabs(depth)), q + (c + v), q + (d + u), clean, but);
  }

  /** A string that ends in a backslash hides the blank behind the comma. */
  lemma BackslashSpoils()
    ensures var t := Arr([Str([BACKSLASH]), Null]);
      Plain(t) && Minified(Print(t, true, 0)) != Print(t, false, 0)
  {
    hide Print, Minified;
    var items := [Str([BACKSLASH]), Null];
    MinifyFormatted(Arr(items));
    assert items[0] == Str([BACKSLASH]) && !Clean(items[0]);
  }

  // ---- What is dropped and what is kept, in front of any text.

  lemma {:induction false} BlankDropped(b: byte, s: Text)
    requires b as char in " \t\r\n"
    ensures Minified([b] + s) == Minified(s)
  {
    Unfold([b] + s);
    assert ([b] + s)[1..] == s;
  }

  /** A slash that starts no comment. */
  lemma {:induction false} SlashDropped(s: Text)
    requires s == [] || s[0] as char !in "/*"
    ensures Minified(Ascii("/") + s) == Minified(s)
  {
    var t := Ascii("/") + s;
    Unfold(t);
    assert t[0] == SLASH && t[1..] == s && (s != [] ==> t[1] == s[0]);
  }

  lemma {:induction false} LineRuns(x: Text, t: Text)
    requires '\n' as int !in x
    ensures LineComment(x + t) == |x| + LineComment(t)
    decreases |x|
  {
    if x == [] {
      assert x + t == t;
    } else {
      LineRuns(x[1..], t);
      assert x[0] != LF && (x + t)[1..] == x[1..] + t;
    }
  }

  /** A comment up to the end of its line, or to the end of the text. */
  lemma {:induction false} LineCommentDropped(x: Text, s: Text)
    requires '\n' as int !in x
    ensures Minified(Ascii("//") + (x + (Ascii("\n") + s))) == Minified(s)
    ensures Minified(Ascii("//") + x) == []
  {
    hide Minified, LineComment;
    LineRuns(x, Ascii("\n") + s);
    LineRuns(x, []);
    LineStops(s);
    DropsRead(Ascii("//"), x, Ascii("\n"), s);
    DropsRead(Ascii("//"), x, [], []);
    MinifiedEmpty([]);
    assert x + [] == x;
  }

  lemma {:induction false} LineStops(s: Text)
    ensures LineComment(Ascii("\n") + s) == 1 && LineComment([]) == 0
  {
  }

  /** A comment between its marks is one round of the loop. */
  lemma {:induction false} DropsRead(open: Text, x: Text, close: Text, s: Text)
    requires |open| == 2 && open[0] == SLASH
    requires Read(open + (x + (close + s))) == |open + x + close|
    ensures Minified(open + (x + (close + s))) == Minified(s)
  {
    hide Minified, Read;
    var t := open + (x + (close + s));
    Unfold(t);
    assert t == (open + x + close) + s;
    assert t[|open + x + close|..] == s;
  }

  predicate NoBlockEnd(x: Text) {
    forall i :: 0 <= i < |x| - 1 ==> x[i] as char != '*' || x[i + 1] as char != '/'
  }

  lemma {:induction false} BlockRuns(x: Text, t: Text)
    requires NoBlockEnd(x) && (x == [] || t == [] || t[0] != SLASH)
    ensures BlockComment(x + t) == |x| + BlockComment(t)
    decreases |x|
  {
    if x == [] {
      assert x + t == t;
    } else {
      assert forall i | 0 <= i < |x[1..]| :: x[1..][i] == x[i + 1];
      BlockRuns(x[1..], t);
      assert (x + t)[1..] == x[1..] + t;
      assert x[0] == STAR && |x + t| > 1 ==> (x + t)[1] != SLASH;
    }
  }

  lemma {:induction false} BlockStops(s: Text)
    ensures BlockComment(Ascii("*/") + s) == 2 && BlockComment([]) == 0
  {
  }

  /** A comment up to its end mark, or to the end of the text. */
  lemma {:induction false} BlockCommentDropped(x: Text, s: Text)
    requires NoBlockEnd(x)
    ensures Minified(Ascii("/*") + (x + (Ascii("*/") + s))) == Minified(s)
    ensures Minified(Ascii("/*") + x) == []
  {
    hide Minified, BlockComment;
    BlockRuns(x, Ascii("*/") + s);
    BlockRuns(x, []);
    BlockStops(s);
    BlockRead(x + (Ascii("*/") + s));
    BlockRead(x + ([] + []));
    DropsRead(Ascii("/*"), x, Ascii("*/"), s);
    assert x + ([] + []) == x;
    DropsRead(Ascii("/*"), x, [], []);
    MinifiedEmpty([]);
  }

  lemma {:induction false} BlockRead(t: Text)
    ensures Read(Ascii("/*") + t) == 2 + BlockComment(t)
  {
    hide BlockComment;
    var u := Ascii("/*") + t;
    assert u[0] == SLASH && u[1] == STAR && u[2..] == t;
  }

  lemma {:induction false} SpanRuns(x: Text, t: Text)
    requires '"' as int !in x && (x == [] || x[|x| - 1] as char != '\\')
    ensures Span(x + t) == |x| + Span(t)
    decreases |x|
  {
    if x == [] {
      assert x + t == t;
    } else {
      SpanRuns(x[1..], t);
      assert (x + t)[1..] == x[1..] + t && x[0] != QUOTE;
      assert x[0] == BACKSLASH ==> |x| > 1 && (x + t)[1] == x[1] != QUOTE;
    }
  }

  /** A string without quotes inside. */
  lemma {:induction false} StringKept(x: Text, s: Text)
    requires '"' as int !in x && (x == [] || x[|x| - 1] as char != '\\')
    ensures var q := Ascii("\"") + (x + Ascii("\"")); Minified(q + s) == q + Minified(s)
  {
    hide Minified;
    var close := Ascii("\"");
    var q := close + (x + close);
    assert close == [QUOTE];
    SpanRuns(x, close + s);
    assert q[1..] + s == x + (close + s);
    KeepsString(q, s);
  }

  lemma {:induction false} OtherKept(b: byte, s: Text)
    requires b as char !in " \t\r\n/\""
    ensures Minified([b] + s) == [b] + Minified(s)
  {
    Unfold([b] + s);
    assert ([b] + s)[1..] == s && ([b] + s)[..1] == [b];
    assert b as char != " \t\r\n/\""[0];
  }
}
