/**
 * One text, one syntax tree, so a text itself decides whether it is one of RFC 8259; and
 * what the parser accepts beyond them.
 */
module Spelling {
  import opened Bytes
  import opened Unicode
  import opened Numbers
  import opened Json
  import opened Options
  import opened ParseSpec
  import opened Grammar
  import opened Completeness
  import opened Soundness

  /** Without the blanks that only an empty container would spell. */
  function Trim(k: Cst): Cst {
    match k
    case CArr(open, es) => CArr(if es == [] then open else [], TrimElems(es))
    case CObj(open, ms) => CObj(if ms == [] then open else [], TrimEntries(ms))
    case _ => k
  }

  function TrimElems(es: seq<Elem>): (r: seq<Elem>)
    ensures |r| == |es|
  {
    if es == [] then [] else [Elem(es[0].before, Trim(es[0].v), es[0].after)] + TrimElems(es[1..])
  }

  function TrimEntry(m: Entry): Entry { Entry(m.before, m.key, m.mid1, m.mid2, Trim(m.v), m.after) }

  function TrimEntries(ms: seq<Entry>): (r: seq<Entry>)
    ensures |r| == |ms|
  {
    if ms == [] then [] else [TrimEntry(ms[0])] + TrimEntries(ms[1..])
  }

  // ---- Strings and numbers.

  lemma JoinedSame(a: Text, x: Text, b: Text, y: Text)
    requires a + x == b + y && |a| == |b|
    ensures a == b && x == y
  {
    assert (a + x)[..|a|] == a && (b + y)[..|b|] == b;
    assert (a + x)[|a|..] == x && (b + y)[|b|..] == y;
  }

  /** The first bytes of a text tell its first piece. */
  lemma PieceBytes(p: Piece, x: Text)
    requires ValidPiece(p)
    ensures var t := PieceText(p) + x;
      && t != [] && (t[0] == BACKSLASH <==> !p.Raw?) && (p.Raw? ==> t[0] == p.b)
      && (p.Lone? ==> |t| == 1 + |x|)
      && (p.Short? ==> |t| > 1 && t[1] == p.e != LOWER_U)
      && (p.Uni? ==> |t| >= 6 && t[1] == LOWER_U && t[2..6] == p.h && !IsHigh(Hex4(p.h)))
      && (p.Pair? ==> |t| >= 12 && t[1] == LOWER_U && t[2..6] == p.h1 && t[8..12] == p.h2 && IsHigh(Hex4(p.h1)))
  {
    hide Hex4;
    var a := PieceText(p);
    var t := a + x;
    assert forall i | 0 <= i < |a| :: t[i] == a[i];
    if p.Short? {
      assert t[1] == a[1];
    } else if p.Uni? {
      assert t[1] == a[1] && t[2..6] == a[2..6] == p.h;
    } else if p.Pair? {
      assert t[1] == a[1] && t[2..6] == a[2..6] == p.h1 && t[8..12] == a[8..12] == p.h2;
    }
  }

  lemma PieceUnique(p: Piece, x: Text, q: Piece, y: Text)
    requires ValidPiece(p) && ValidPiece(q) && PieceText(p) + x == PieceText(q) + y
    requires (p.Lone? ==> x == []) && (q.Lone? ==> y == [])
    ensures p == q && x == y
  {
    hide Hex4, PieceText, ValidPiece;
    PieceBytes(p, x);
    PieceBytes(q, y);
    assert p == q;
    JoinedSame(PieceText(p), x, PieceText(q), y);
  }

  lemma {:induction false} PiecesUnique(ps: seq<Piece>, qs: seq<Piece>)
    requires Decodable(ps) && Decodable(qs) && PiecesText(ps) == PiecesText(qs)
    ensures ps == qs
    decreases |ps|
  {
    hide PieceText, ValidPiece, PiecesText, Decodable;
    NoPieces();
    if ps != [] { PiecesTail(ps); }
    if qs != [] { PiecesTail(qs); }
    if ps != [] && qs != [] {
      PieceUnique(ps[0], PiecesText(ps[1..]), qs[0], PiecesText(qs[1..]));
      PiecesUnique(ps[1..], qs[1..]);
      assert ps == [ps[0]] + ps[1..] && qs == [qs[0]] + qs[1..];
    }
  }

  lemma QuotedUnique(ps: seq<Piece>, qs: seq<Piece>)
    requires ValidPieces(ps) && ValidPieces(qs) && QuotedText(ps) == QuotedText(qs)
    ensures ps == qs
  {
    hide Decodable, Paired, PiecesText;
    var a, b := PiecesText(ps), PiecesText(qs);
    assert QuotedText(ps)[1..|a| + 1] == a && QuotedText(qs)[1..|b| + 1] == b;
    PiecesUnique(ps, qs);
  }

  lemma ExponentUnique(x: ExponentPart, y: ExponentPart)
    requires ValidExponent(x) && ValidExponent(y) && ExponentText(x) == ExponentText(y)
    ensures x == y
  {
    var s := ExponentText(x);
    if x.ExponentPart? && y.ExponentPart? {
      SignAt(s, 0, x);
      SignAt(s, 0, y);
      assert s[0..] == s;
      assert |x.sign| == |y.sign|;
      JoinedSame([x.e], x.sign + x.digits, [y.e], y.sign + y.digits);
      JoinedSame(x.sign, x.digits, y.sign, y.digits);
    }
  }

  lemma NumeralUnique(m: Numeral, n: Numeral)
    requires ValidNumeral(m) && ValidNumeral(n) && NumeralText(m) == NumeralText(n)
    ensures m == n
  {
    hide NumeralText, AfterWhole, DigitsEnd, ValidExponent, ExponentText;
    NumeralParts(m);
    NumeralParts(n);
    var s, start := NumeralText(m), if m.negative then 1 else 0;
    DigitsEndIs(s, start, m.whole, AfterWhole(m));
    DigitsEndIs(s, start, n.whole, AfterWhole(n));
    TailUnique(m, n);
  }

  lemma TailUnique(m: Numeral, n: Numeral)
    requires ValidNumeral(m) && ValidNumeral(n) && AfterWhole(m) == AfterWhole(n)
    ensures m.point == n.point && m.places == n.places && m.exponent == n.exponent
  {
    hide DigitsEnd, ExponentText, ValidExponent;
    var t, x, y := AfterWhole(m), ExponentText(m.exponent), ExponentText(n.exponent);
    ExponentFirst(m.exponent);
    ExponentFirst(n.exponent);
    if m.point {
      assert t[0] == DOT;
      assert t[1..] == m.places + x;
      DigitsEndIs(t, 1, m.places, x);
    } else {
      assert t == x;
    }
    if n.point {
      assert t[0] == DOT;
      assert t[1..] == n.places + y;
      DigitsEndIs(t, 1, n.places, y);
    } else {
      assert t == y;
    }
    ExponentUnique(m.exponent, n.exponent);
  }

  // ---- Values.

  lemma AtStart(t: Text)
    ensures Terminated(t + [NUL]) && At(t + [NUL], 0, t)
  {
  }

  /** A value's text tells the syntax tree, but for blanks that are not spelled. */
  lemma {:induction false} CstUnique(j: Cst, k: Cst, d: nat)
    requires d <= NESTING_LIMIT && Valid(j, d) && Valid(k, d) && ValueText(j) == ValueText(k)
    ensures Trim(j) == Trim(k)
    decreases j, 1
  {
    hide NumeralText, QuotedText, ElemsText, EntriesText, ValidNumeral, ValidPieces, ValidElem, ValidEntry, Gap;
    FirstByte(j, d);
    FirstByte(k, d);
    if j.CStr? {
      QuotedUnique(j.ps, k.ps);
    } else if j.CNum? {
      NumeralUnique(j.n, k.n);
    } else if j.CArr? {
      ArrayUnique(j, k, d);
    } else if j.CObj? {
      ObjectUnique(j, k, d);
    }
  }

  lemma OpenUnique(a: Text, b: Text, close: byte)
    requires a + [close] == b + [close]
    ensures a == b
  {
    assert |a| == |b|;
    JoinedSame(a, [close], b, [close]);
  }

  /** An empty container has its closing bracket where a filled one has a value. */
  lemma NotEmptyArray(open: Text, es: seq<Elem>, d: nat)
    requires d < NESTING_LIMIT && Gap(open) && es != [] && forall i :: 0 <= i < |es| ==> ValidElem(es[i], d)
    ensures open + [RBRACKET] != ElemsText(es)
  {
    hide At, Skip, ValueText, ElemsText, ValidElem, Gap;
    if open + [RBRACKET] == ElemsText(es) {
      var c := [LBRACKET] + (open + [RBRACKET]) + [NUL];
      AtStart([LBRACKET] + (open + [RBRACKET]));
      EmptyComplete(c, 0, LBRACKET, open, RBRACKET);
      AtSplit(c, 0, [LBRACKET], ElemsText(es));
      ElemsComplete(c, 1, es, NESTING_LIMIT - d);
      assert false;
    }
  }

  lemma NotEmptyObject(open: Text, ms: seq<Entry>, d: nat)
    requires d < NESTING_LIMIT && Gap(open) && ms != [] && forall i :: 0 <= i < |ms| ==> ValidEntry(ms[i], d)
    ensures open + [RBRACE] != EntriesText(ms)
  {
    hide At, Skip, ValueText, EntriesText, ValidEntry, Gap;
    if open + [RBRACE] == EntriesText(ms) {
      var c := [LBRACE] + (open + [RBRACE]) + [NUL];
      AtStart([LBRACE] + (open + [RBRACE]));
      EmptyComplete(c, 0, LBRACE, open, RBRACE);
      AtSplit(c, 0, [LBRACE], EntriesText(ms));
      EntriesComplete(c, 1, ms, NESTING_LIMIT - d);
      assert false;
    }
  }

  lemma {:induction false} ArrayUnique(j: Cst, k: Cst, d: nat)
    requires j.CArr? && k.CArr? && d <= NESTING_LIMIT && Valid(j, d) && Valid(k, d) && ValueText(j) == ValueText(k)
    ensures Trim(j) == Trim(k)
    decreases j, 0
  {
    hide ElemsText, ValidElem, Gap;
    var x := if j.elems == [] then j.open + [RBRACKET] else ElemsText(j.elems);
    var y := if k.elems == [] then k.open + [RBRACKET] else ElemsText(k.elems);
    JoinedSame([LBRACKET], x, [LBRACKET], y);
    if j.elems == [] && k.elems == [] {
      OpenUnique(j.open, k.open, RBRACKET);
    } else if j.elems == [] {
      NotEmptyArray(j.open, k.elems, d - 1);
    } else if k.elems == [] {
      NotEmptyArray(k.open, j.elems, d - 1);
    } else {
      ElemsUnique(j.elems, k.elems, d - 1);
    }
  }

  lemma {:induction false} ObjectUnique(j: Cst, k: Cst, d: nat)
    requires j.CObj? && k.CObj? && d <= NESTING_LIMIT && Valid(j, d) && Valid(k, d) && ValueText(j) == ValueText(k)
    ensures Trim(j) == Trim(k)
    decreases j, 0
  {
    hide EntriesText, ValidEntry, Gap;
    var x := if j.members == [] then j.open + [RBRACE] else EntriesText(j.members);
    var y := if k.members == [] then k.open + [RBRACE] else EntriesText(k.members);
    JoinedSame([LBRACE], x, [LBRACE], y);
    if j.members == [] && k.members == [] {
      OpenUnique(j.open, k.open, RBRACE);
    } else if j.members == [] {
      NotEmptyObject(j.open, k.members, d - 1);
    } else if k.members == [] {
      NotEmptyObject(k.open, j.members, d - 1);
    } else {
      EntriesUnique(j.members, k.members, d - 1);
    }
  }

  /** Both spellings put the ends of the first element where the parser finds them. */
  lemma {:induction false} ElemUnique(e: Elem, x: byte, more: Text, f: Elem, y: byte, rest: Text, d: nat)
    requires d <= NESTING_LIMIT && ValidElem(e, d) && ValidElem(f, d)
    requires x > SPACE && !IsNumberByte(x) && y > SPACE && !IsNumberByte(y)
    requires e.before + (ValueText(e.v) + (e.after + ([x] + more))) ==
      f.before + (ValueText(f.v) + (f.after + ([y] + rest)))
    ensures e.before == f.before && ValueText(e.v) == ValueText(f.v) && e.after == f.after && x == y && more == rest
  {
    hide At, ParseValue, Skip, ValueText, Meaning, ValidElem;
    var v, w := ValueText(e.v), ValueText(f.v);
    var t := e.before + (v + (e.after + ([x] + more)));
    AtStart(t);
    ElemComplete(t + [NUL], 0, e, NESTING_LIMIT - d, x, more);
    ElemComplete(t + [NUL], 0, f, NESTING_LIMIT - d, y, rest);
    JoinedSame(e.before, v + (e.after + ([x] + more)), f.before, w + (f.after + ([y] + rest)));
    JoinedSame(v, e.after + ([x] + more), w, f.after + ([y] + rest));
    JoinedSame(e.after, [x] + more, f.after, [y] + rest);
    JoinedSame([x], more, [y], rest);
  }

  lemma ElemsUnique(es: seq<Elem>, fs: seq<Elem>, d: nat)
    requires d <= NESTING_LIMIT && es != [] && fs != [] && ElemsText(es) == ElemsText(fs)
    requires forall i :: 0 <= i < |es| ==> ValidElem(es[i], d)
    requires forall i :: 0 <= i < |fs| ==> ValidElem(fs[i], d)
    ensures TrimElems(es) == TrimElems(fs)
    decreases es, 0
  {
    hide ElemsText, ValueText, Valid, Trim, Gap;
    var x, more := if |es| == 1 then RBRACKET else COMMA, if |es| == 1 then [] else ElemsText(es[1..]);
    var y, rest := if |fs| == 1 then RBRACKET else COMMA, if |fs| == 1 then [] else ElemsText(fs[1..]);
    ElemsShape(es, x, more);
    ElemsShape(fs, y, rest);
    ElemUnique(es[0], x, more, fs[0], y, rest, d);
    CstUnique(es[0].v, fs[0].v, d);
    if |es| > 1 {
      ElemsUnique(es[1..], fs[1..], d);
    } else {
      assert es[1..] == [] && fs[1..] == [];
    }
  }

  /** Both spellings put the ends of the parts of an entry where the parser finds them. */
  lemma {:induction false} EntryLengths(e: Entry, x: byte, more: Text, f: Entry, y: byte, rest: Text, d: nat)
    requires d <= NESTING_LIMIT && ValidEntry(e, d) && ValidEntry(f, d)
    requires x > SPACE && !IsNumberByte(x) && y > SPACE && !IsNumberByte(y)
    requires EntryText(e) + (e.after + ([x] + more)) == EntryText(f) + (f.after + ([y] + rest))
    ensures |e.before| == |f.before| && |QuotedText(e.key)| == |QuotedText(f.key)| && |e.mid1| == |f.mid1|
    ensures |e.mid2| == |f.mid2| && |ValueText(e.v)| == |ValueText(f.v)| && |e.after| == |f.after|
  {
    hide *;
    var t := EntryText(e) + (e.after + ([x] + more));
    AtStart(t);
    EntryPlaces(t + [NUL], 0, e, NESTING_LIMIT - d, x, more);
    EntryPlaces(t + [NUL], 0, f, NESTING_LIMIT - d, y, rest);
  }

  lemma {:induction false} EntryUnique(e: Entry, x: byte, more: Text, f: Entry, y: byte, rest: Text, d: nat)
    requires d <= NESTING_LIMIT && ValidEntry(e, d) && ValidEntry(f, d)
    requires x > SPACE && !IsNumberByte(x) && y > SPACE && !IsNumberByte(y)
    requires EntryText(e) + (e.after + ([x] + more)) == EntryText(f) + (f.after + ([y] + rest))
    ensures e.before == f.before && QuotedText(e.key) == QuotedText(f.key)
    ensures e.mid1 == f.mid1 && e.mid2 == f.mid2 && ValueText(e.v) == ValueText(f.v)
    ensures e.after == f.after && x == y && more == rest
  {
    EntryLengths(e, x, more, f, y, rest, d);
    hide *;
    var e5, f5 := e.after + ([x] + more), f.after + ([y] + rest);
    EntryShape(e, e5);
    EntryShape(f, f5);
    var e4, f4 := ValueText(e.v) + e5, ValueText(f.v) + f5;
    var e3, f3 := [COLON] + (e.mid2 + e4), [COLON] + (f.mid2 + f4);
    JoinedSame(e.before, QuotedText(e.key) + (e.mid1 + e3), f.before, QuotedText(f.key) + (f.mid1 + f3));
    JoinedSame(QuotedText(e.key), e.mid1 + e3, QuotedText(f.key), f.mid1 + f3);
    JoinedSame(e.mid1, e3, f.mid1, f3);
    JoinedSame([COLON], e.mid2 + e4, [COLON], f.mid2 + f4);
    JoinedSame(e.mid2, e4, f.mid2, f4);
    JoinedSame(ValueText(e.v), e5, ValueText(f.v), f5);
    JoinedSame(e.after, [x] + more, f.after, [y] + rest);
    JoinedSame([x], more, [y], rest);
  }

  lemma EntriesUnique(es: seq<Entry>, fs: seq<Entry>, d: nat)
    requires d <= NESTING_LIMIT && es != [] && fs != [] && EntriesText(es) == EntriesText(fs)
    requires forall i :: 0 <= i < |es| ==> ValidEntry(es[i], d)
    requires forall i :: 0 <= i < |fs| ==> ValidEntry(fs[i], d)
    ensures TrimEntries(es) == TrimEntries(fs)
    decreases es, 0
  {
    hide EntriesText, EntryText, QuotedText, ValueText, Valid, ValidPieces, Trim, Gap;
    var x, more := if |es| == 1 then RBRACE else COMMA, if |es| == 1 then [] else EntriesText(es[1..]);
    var y, rest := if |fs| == 1 then RBRACE else COMMA, if |fs| == 1 then [] else EntriesText(fs[1..]);
    EntriesShape(es, x, more);
    EntriesShape(fs, y, rest);
    EntryUnique(es[0], x, more, fs[0], y, rest, d);
    QuotedUnique(es[0].key, fs[0].key);
    CstUnique(es[0].v, fs[0].v, d);
    if |es| > 1 {
      EntriesUnique(es[1..], fs[1..], d);
    } else {
      assert es[1..] == [] && fs[1..] == [];
    }
  }

  // ---- The texts of RFC 8259 among the accepted ones.

  lemma {:induction false} TrimText(k: Cst)
    ensures ValueText(Trim(k)) == ValueText(k)
    decreases k
  {
    match k
    case CArr(open, es) => if es != [] { TrimElemsText(es); }
    case CObj(open, ms) => if ms != [] { TrimEntriesText(ms); }
    case _ =>
  }

  lemma {:induction false} TrimElemsText(es: seq<Elem>)
    requires es != []
    ensures ElemsText(TrimElems(es)) == ElemsText(es)
    decreases es
  {
    hide Trim, ValueText;
    TrimText(es[0].v);
    assert TrimElems(es)[1..] == TrimElems(es[1..]);
    if |es| > 1 { TrimElemsText(es[1..]); }
  }

  lemma {:induction false} TrimEntriesText(ms: seq<Entry>)
    requires ms != []
    ensures EntriesText(TrimEntries(ms)) == EntriesText(ms)
    decreases ms
  {
    hide Trim, ValueText, QuotedText;
    TrimText(ms[0].v);
    assert TrimEntries(ms)[1..] == TrimEntries(ms[1..]);
    if |ms| > 1 { TrimEntriesText(ms[1..]); }
  }

  lemma {:induction false} TrimElemsAt(es: seq<Elem>, i: nat)
    requires i < |es|
    ensures TrimElems(es)[i] == Elem(es[i].before, Trim(es[i].v), es[i].after)
    decreases i
  {
    if i > 0 { TrimElemsAt(es[1..], i - 1); }
  }

  lemma {:induction false} TrimEntriesAt(ms: seq<Entry>, i: nat)
    requires i < |ms|
    ensures TrimEntries(ms)[i] == TrimEntry(ms[i])
    decreases i
  {
    if i > 0 { TrimEntriesAt(ms[1..], i - 1); }
  }

  lemma {:induction false} TrimStandard(k: Cst, d: nat)
    requires Standard(k, d)
    ensures Standard(Trim(k), d)
    decreases k
  {
    match k
    case CArr(open, es) =>
      forall i | 0 <= i < |es| ensures StandardElem(TrimElems(es)[i], d - 1) {
        TrimElemsAt(es, i);
        TrimStandard(es[i].v, d - 1);
      }
    case CObj(open, ms) =>
      forall i | 0 <= i < |ms| ensures StandardEntry(TrimEntries(ms)[i], d - 1) {
        TrimEntriesAt(ms, i);
        TrimStandard(ms[i].v, d - 1);
      }
    case _ =>
  }

  /** Some way to spell the text of `k` is one of RFC 8259. */
  ghost predicate HasStandard(k: Cst, d: nat) { exists s :: Standard(s, d) && ValueText(s) == ValueText(k) }

  /** The one tree of an accepted value says whether its text is one of RFC 8259. */
  lemma {:induction false} StandardDecided(k: Cst, d: nat)
    requires d <= NESTING_LIMIT && Valid(k, d)
    ensures HasStandard(k, d) <==> Standard(Trim(k), d)
  {
    hide Valid, Standard, ValueText, Trim;
    TrimText(k);
    if Standard(Trim(k), d) { assert HasStandard(k, d); }
    if HasStandard(k, d) {
      var s :| Standard(s, d) && ValueText(s) == ValueText(k);
      StandardValid(s, d);
      CstUnique(s, k, d);
      TrimStandard(s, d);
    }
  }

  /** Where the parser finds the parts of an accepted buffer. */
  lemma {:induction false} FramePlaces(c: Text, mark: Text, before: Text, k: Cst, after: Text)
    requires Framed(c, mark, before, k, after)
    ensures Terminated(c) && SkipBom(c) == |mark| && Skip(c, |mark|) == |mark| + |before|
    ensures ParseValue(c, |mark| + |before|, 0) == Ok(Meaning(k), |mark| + |before| + |ValueText(k)|)
    ensures |c| == |mark| + |before| + |ValueText(k)| + |after| + 1
  {
    hide At, ParseValue, Skip, SkipBom, ValueText, Meaning, Valid, Gap;
    FirstByte(k, NESTING_LIMIT);
    TextStart(mark, before, ValueText(k), after);
    Blanks(c, |mark|, before);
    ValueComplete(c, |mark| + |before|, k, 0);
  }

  lemma {:induction false} FrameUnique(c: Text, mark: Text, before: Text, j: Cst, after: Text, mark': Text,
      before': Text, k: Cst, after': Text)
    requires Framed(c, mark, before, j, after) && Framed(c, mark', before', k, after')
    ensures mark == mark' && before == before' && Trim(j) == Trim(k) && after == after'
  {
    FramePlaces(c, mark, before, j, after);
    FramePlaces(c, mark', before', k, after');
    hide ParseValue, Skip, SkipBom, ValueText, Meaning, Valid, Gap, Trim;
    var v, w := ValueText(j), ValueText(k);
    JoinedSame(mark, before + (v + (after + [NUL])), mark', before' + (w + (after' + [NUL])));
    JoinedSame(before, v + (after + [NUL]), before', w + (after' + [NUL]));
    JoinedSame(v, after + [NUL], w, after' + [NUL]);
    JoinedSame(after, [NUL], after', [NUL]);
    CstUnique(j, k, NESTING_LIMIT);
  }

  predicate StandardFrame(c: Text, before: Text, k: Cst, after: Text) {
    && Whitespace(before) && Whitespace(after) && Standard(k, NESTING_LIMIT)
    && c == before + (ValueText(k) + (after + [NUL]))
  }

  /** A text of RFC 8259 and the NUL behind it. */
  ghost predicate IsStandard(c: Text) { exists before, k, after :: StandardFrame(c, before, k, after) }

  /** However the parser takes an accepted buffer apart, the parts say whether it is a text of RFC 8259. */
  lemma {:induction false} AcceptedStandard(c: Text, mark: Text, before: Text, k: Cst, after: Text)
    requires Framed(c, mark, before, k, after)
    ensures IsStandard(c) <==>
      mark == [] && Whitespace(before) && Whitespace(after) && Standard(Trim(k), NESTING_LIMIT)
  {
    hide ValueText, Valid, Gap, Trim, Standard, Whitespace;
    TrimText(k);
    if mark == [] && Whitespace(before) && Whitespace(after) && Standard(Trim(k), NESTING_LIMIT) {
      var t := before + (ValueText(k) + (after + [NUL]));
      assert c == [] + t == t;
      assert StandardFrame(c, before, Trim(k), after);
    }
    if IsStandard(c) {
      var b, s, a :| StandardFrame(c, b, s, a);
      WhitespaceGap(b);
      WhitespaceGap(a);
      StandardValid(s, NESTING_LIMIT);
      assert [] + (b + (ValueText(s) + (a + [NUL]))) == c;
      FrameUnique(c, mark, before, k, after, [], b, s, a);
      TrimStandard(s, NESTING_LIMIT);
    }
  }

  // ---- Accepted texts that are not of RFC 8259, one for each way to differ.

  /** The buffer that holds just the value. */
  function Alone(k: Cst): Text { ValueText(k) + [NUL] }

  ghost predicate Deviates(k: Cst) {
    ParseText(Alone(k), true) == Ok(Meaning(k), |ValueText(k)|) && !IsStandard(Alone(k))
  }

  lemma {:induction false} DeviatesWhen(k: Cst)
    requires Valid(k, NESTING_LIMIT) && !Standard(Trim(k), NESTING_LIMIT)
    ensures Deviates(k)
  {
    hide ParseText, ValueText, Meaning, Valid, Standard, Trim;
    var c := Alone(k);
    assert c == [] + ([] + (ValueText(k) + ([] + [NUL])));
    NoGap();
    TextComplete(false, [], k, [], true);
    assert Framed(c, [], [], k, []);
    AcceptedStandard(c, [], [], k, []);
  }

  lemma OneDigit(b: byte)
    ensures WholeValue([b]) == DigitValue(b) && PlacesValue([b]) == DigitValue(b) as real / 10.0
    ensures WholeValue([ZERO, b]) == DigitValue(b) && WholeValue([]) == 0 && PlacesValue([]) == 0.0
  {
    assert [b][..0] == [] && [b][1..] == [] && [ZERO, b][..1] == [ZERO] && [ZERO][..0] == [];
    assert WholeValue([ZERO]) == 0;
  }

  /** 01, 1. and -.5 */
  lemma NumeralsBeyond()
    ensures var k := CNum(Numeral(false, [ZERO, ZERO + 1], false, [], NoExponent));
      Deviates(k) && Meaning(k) == Num(1.0)
    ensures var k := CNum(Numeral(false, [ZERO + 1], true, [], NoExponent));
      Deviates(k) && Meaning(k) == Num(1.0)
    ensures var k := CNum(Numeral(true, [], true, [ZERO + 5], NoExponent));
      Deviates(k) && Meaning(k) == Num(-0.5)
  {
    hide Deviates, WholeValue, PlacesValue;
    OneDigit(ZERO + 1);
    OneDigit(ZERO + 5);
    DeviatesWhen(CNum(Numeral(false, [ZERO, ZERO + 1], false, [], NoExponent)));
    DeviatesWhen(CNum(Numeral(false, [ZERO + 1], true, [], NoExponent)));
    DeviatesWhen(CNum(Numeral(true, [], true, [ZERO + 5], NoExponent)));
  }

  lemma {:induction false} StringDeviates(ps: seq<Piece>, t: Text)
    requires Decodable(ps) && PiecesText(ps) == t && Paired(t) && !StandardString(ps)
    ensures Deviates(CStr(ps))
  {
    hide Deviates, Paired, Decodable, PiecesText, StandardString;
    DeviatesWhen(CStr(ps));
  }

  /** A control byte, digits that are none, and a backslash in front of the closing quote. */
  lemma StringsBeyond()
    ensures Deviates(CStr([Raw(TAB)]))
    ensures Deviates(CStr([Uni([ZERO, ZERO, ZERO, LOWER_T])]))
    ensures Deviates(CStr([Uni([ZERO, ZERO, ZERO, BACKSLASH]), Lone]))
  {
    ControlByte();
    NoDigits();
    LoneBackslash();
  }

  lemma ControlByte()
    ensures Deviates(CStr([Raw(TAB)]))
  {
    hide Deviates;
    var ps := [Raw(TAB)];
    assert ps[1..] == [];
    assert PiecesText(ps) == [TAB] && [TAB][1..] == [];
    assert !StandardPiece(ps[0]);
    StringDeviates(ps, [TAB]);
  }

  lemma NoDigits()
    ensures Deviates(CStr([Uni([ZERO, ZERO, ZERO, LOWER_T])]))
  {
    hide Deviates, Paired;
    var h := [ZERO, ZERO, ZERO, LOWER_T];
    var ps := [Uni(h)];
    assert ps[1..] == [] && !IsHex(h[3]);
    assert PiecesText(ps) == [BACKSLASH, LOWER_U] + h;
    PairedEscape(LOWER_U, h);
    PairedPlain(h, []);
    PairedEmpty();
    assert h + [] == h && !StandardPiece(ps[0]);
    StringDeviates(ps, [BACKSLASH, LOWER_U] + h);
  }

  lemma LoneBackslash()
    ensures Deviates(CStr([Uni([ZERO, ZERO, ZERO, BACKSLASH]), Lone]))
  {
    hide Deviates, Paired;
    var h := [ZERO, ZERO, ZERO, BACKSLASH];
    var ps := [Uni(h), Lone];
    var t := [ZERO, ZERO, ZERO] + ([BACKSLASH, BACKSLASH] + []);
    assert ps[1..] == [Lone] && [Lone][1..] == [] && !IsHex(h[3]);
    assert PiecesText([Lone]) == [BACKSLASH];
    assert PiecesText(ps) == [BACKSLASH, LOWER_U] + t;
    PairedEscape(LOWER_U, t);
    PairedPlain([ZERO, ZERO, ZERO], [BACKSLASH, BACKSLASH] + []);
    PairedEscape(BACKSLASH, []);
    PairedEmpty();
    assert !StandardPiece(ps[1]);
    StringDeviates(ps, [BACKSLASH, LOWER_U] + t);
  }

  /** A control byte between tokens. */
  lemma BlanksBeyond()
    ensures Deviates(CArr([1], []))
  {
    hide Deviates;
    var open: Text := [1];
    assert open[0] == 1;
    assert !Whitespace(open) && Trim(CArr(open, [])) == CArr(open, []);
    DeviatesWhen(CArr(open, []));
  }
}
