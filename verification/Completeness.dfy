/** Every rendering of a value parses to exactly that value. */
module Completeness {
  import opened Bytes
  import opened Unicode
  import opened Numbers
  import opened Json
  import opened Options
  import opened ParseSpec
  import opened Grammar

  lemma SkipBlanks(c: Text, off: nat, w: Text)
    requires At(c, off, w) && off + |w| < |c| && Gap(w)
    ensures Skip(c, off) == Skip(c, off + |w|)
    decreases w
  {
    if w != [] {
      AtByte(c, off, w, 0);
      AtSplit(c, off, w[..1], w[1..]);
      assert w == w[..1] + w[1..];
      SkipBlanks(c, off + 1, w[1..]);
    }
  }

  lemma AtEnd(c: Text, off: nat, t: Text)
    requires At(c, off, t)
    ensures off + |t| <= |c|
  {
  }

  // ---- Strings.

  /** The first pass ends at the quote behind the pairs. */
  lemma {:induction false} ScanPaired(c: Text, i: nat, s: Text)
    requires Paired(s) && At(c, i, s + [QUOTE])
    ensures ScanEnd(c, i) == Some(i + |s|)
    decreases |s|
  {
    hide At;
    var t := s + [QUOTE];
    AtEnd(c, i, t);
    AtByte(c, i, t, 0);
    if s != [] {
      var n := if s[0] == BACKSLASH then 2 else 1;
      assert t == s[..n] + (s[n..] + [QUOTE]);
      AtSplit(c, i, s[..n], s[n..] + [QUOTE]);
      AtEnd(c, i + n, s[n..] + [QUOTE]);
      ScanPaired(c, i + n, s[n..]);
    }
  }

  lemma HexAt(c: Text, i: nat, h: Text)
    requires |h| == 4 && At(c, i, [BACKSLASH, LOWER_U] + h)
    ensures i + 6 <= |c| && c[i] == BACKSLASH && c[i + 1] == LOWER_U && c[i + 2..i + 6] == h
  {
    var t := [BACKSLASH, LOWER_U] + h;
    AtByte(c, i, t, 0);
    AtByte(c, i, t, 1);
    AtSplit(c, i, [BACKSLASH, LOWER_U], h);
  }

  lemma PairAt(c: Text, i: nat, h1: Text, h2: Text)
    requires |h1| == 4 && |h2| == 4 && At(c, i, PieceText(Pair(h1, h2)))
    ensures At(c, i, [BACKSLASH, LOWER_U] + h1) && At(c, i + 6, [BACKSLASH, LOWER_U] + h2)
  {
    hide At;
    var t := [BACKSLASH, LOWER_U] + h2;
    assert PieceText(Pair(h1, h2)) == ([BACKSLASH, LOWER_U] + h1) + t;
    AtSplit(c, i, [BACKSLASH, LOWER_U] + h1, t);
  }

  /** One round of the second pass takes one piece. */
  lemma DecodePiece(c: Text, i: nat, end: nat, p: Piece)
    requires ValidPiece(p) && At(c, i, PieceText(p)) && i + |PieceText(p)| <= end < |c|
    requires p.Lone? ==> c[i + 1] == QUOTE
    ensures NextUnit(c, i, end) == Unit(if p.Lone? then 2 else |PieceText(p)|, PieceMeaning(p))
  {
    hide At, Utf8, Hex4, PairValue, AllHex;
    AtByte(c, i, PieceText(p), 0);
    if p.Short? {
      AtByte(c, i, PieceText(p), 1);
    } else if p.Uni? {
      HexAt(c, i, p.h);
    } else if p.Pair? {
      PairAt(c, i, p.h1, p.h2);
      HexAt(c, i, p.h1);
      HexAt(c, i + 6, p.h2);
    }
  }

  lemma DecodeStep(c: Text, i: nat, end: nat, n: nat, bs: Text)
    requires i < end < |c| && NextUnit(c, i, end) == Unit(n, bs)
    requires Decode(c, i + n, end).Some?
    ensures Decode(c, i, end) == Some(bs + Decode(c, i + n, end).value)
  {
    hide NextUnit;
  }

  lemma {:induction false} PiecesTail(ps: seq<Piece>)
    requires Decodable(ps) && ps != []
    ensures ValidPiece(ps[0]) && Decodable(ps[1..]) && (ps[0].Lone? ==> ps[1..] == [])
    ensures PiecesText(ps) == PieceText(ps[0]) + PiecesText(ps[1..])
    ensures PiecesText(ps) + [QUOTE] == PieceText(ps[0]) + (PiecesText(ps[1..]) + [QUOTE])
    ensures PiecesMeaning(ps) == PieceMeaning(ps[0]) + PiecesMeaning(ps[1..])
  {
    hide PieceText, PieceMeaning, ValidPiece;
    assert forall k | 0 <= k < |ps| - 1 :: ps[1..][k] == ps[k + 1];
  }

  lemma NoPieces()
    ensures PiecesText([]) == [] && PiecesMeaning([]) == []
  {
  }

  lemma {:induction false} DecodeEnd(c: Text, i: nat, end: nat)
    requires end < |c| && i >= end
    ensures Decode(c, i, end) == Some([])
  {
  }

  lemma {:induction false} DecodePieces(c: Text, i: nat, ps: seq<Piece>)
    requires Decodable(ps) && At(c, i, PiecesText(ps) + [QUOTE])
    ensures i + |PiecesText(ps)| < |c| && Decode(c, i, i + |PiecesText(ps)|) == Some(PiecesMeaning(ps))
    decreases |ps|
  {
    hide *;
    var end := i + |PiecesText(ps)|;
    AtEnd(c, i, PiecesText(ps) + [QUOTE]);
    NoPieces();
    if ps == [] {
      DecodeEnd(c, i, end);
    } else {
      PiecesTail(ps);
      var p, rest := PieceText(ps[0]), PiecesText(ps[1..]) + [QUOTE];
      AtSplit(c, i, p, rest);
      if ps[0].Lone? {
        LoneEnd(c, i, ps);
        DecodeEnd(c, i + 2, end);
        DecodePiece(c, i, end, ps[0]);
        DecodeStep(c, i, end, 2, PieceMeaning(ps[0]));
      } else {
        DecodePieces(c, i + |p|, ps[1..]);
        DecodePiece(c, i, end, ps[0]);
        DecodeStep(c, i, end, |p|, PieceMeaning(ps[0]));
      }
    }
  }

  lemma {:induction false} LoneEnd(c: Text, i: nat, ps: seq<Piece>)
    requires ps == [Lone] && At(c, i, PiecesText(ps) + [QUOTE])
    ensures i + 1 < |c| && c[i + 1] == QUOTE && PieceText(Lone) == [BACKSLASH] == PiecesText(ps)
  {
    assert PiecesText(ps) == [BACKSLASH];
    AtByte(c, i, [BACKSLASH] + [QUOTE], 1);
  }

  /** parse_string reads any spelling of a string back and stops after its closing quote. */
  lemma StringComplete(c: Text, off: nat, ps: seq<Piece>)
    requires ValidPieces(ps) && At(c, off, QuotedText(ps))
    ensures ParseString(c, off) == Ok(StringMeaning(ps), off + |QuotedText(ps)|)
  {
    hide At, ScanEnd, Decode, PiecesText, PiecesMeaning, Paired, Decodable;
    var t := PiecesText(ps);
    AtByte(c, off, QuotedText(ps), 0);
    AtSplit(c, off, [QUOTE], t + [QUOTE]);
    AtEnd(c, off + 1, t + [QUOTE]);
    ScanPaired(c, off + 1, t);
    DecodePieces(c, off + 1, ps);
  }

  // ---- Numbers.

  lemma DigitsEndIs(s: Text, i: nat, a: Text, rest: Text)
    requires i + |a| <= |s| && s[i..] == a + rest && AllDigits(a) && (rest != [] ==> !IsDigit(rest[0]))
    ensures DigitsEnd(s, i) == i + |a| && s[i..i + |a|] == a && s[i + |a|..] == rest
  {
    var t := s[i..];
    assert forall k | i <= k < i + |a| :: s[k] == t[k - i] == a[k - i];
    assert rest != [] ==> s[i + |a|] == t[|a|] == rest[0];
    assert t[|a|..] == rest && t[..|a|] == a;
  }

  lemma ExponentIs(s: Text, i: nat, x: ExponentPart)
    requires i <= |s| && s[i..] == ExponentText(x) && ValidExponent(x)
    ensures Exponent(s, i) == (|s|, ExponentValue(x))
  {
    if x.ExponentPart? {
      hide DigitsEnd, NatOf, AllDigits, WholeValue;
      var first := i + 1 + |x.sign|;
      SignAt(s, i, x);
      DigitsEndIs(s, first, x.digits, []);
      WholeIs(x.digits);
      assert s[first..|s|] == x.digits;
    }
  }

  lemma SignAt(s: Text, i: nat, x: ExponentPart)
    requires i <= |s| && s[i..] == ExponentText(x) && ValidExponent(x) && x.ExponentPart?
    ensures var first := i + 1 + |x.sign|;
      && i + 1 < |s| && s[i] == x.e && first + |x.digits| == |s| && s[first..] == x.digits + []
      && if x.sign == [] then s[i + 1] != PLUS && s[i + 1] != MINUS else x.sign == [s[i + 1]]
  {
    var t := s[i..];
    assert s[i] == t[0] && s[i + 1] == t[1];
    assert t == ([x.e] + x.sign) + x.digits && t[1 + |x.sign|..] == x.digits;
    assert s[i + 1 + |x.sign|..] == t[1 + |x.sign|..];
    if x.sign == [] { assert t[1] == x.digits[0]; } else { assert t[1] == x.sign[0]; }
  }

  /** What follows the integer digits. */
  function AfterWhole(n: Numeral): Text { (if n.point then [DOT] + n.places else []) + ExponentText(n.exponent) }

  lemma ExponentFirst(x: ExponentPart)
    requires ValidExponent(x)
    ensures var t := ExponentText(x); t != [] ==> !IsDigit(t[0]) && t[0] != DOT
  {
  }

  lemma PointThere(s: Text, whole: nat, places: Text, x: Text)
    requires whole <= |s| && s[whole..] == ([DOT] + places) + x
    ensures whole < |s| && s[whole] == DOT && s[whole + 1..] == places + x
  {
    var t := s[whole..];
    assert s[whole] == t[0] == DOT;
    assert t == [DOT] + (places + x);
    assert s[whole + 1..] == t[1..] == places + x;
  }

  /** The places, and the exponent behind them. */
  lemma {:induction false} PlacesIs(s: Text, whole: nat, n: Numeral)
    requires ValidNumeral(n) && whole <= |s| && s[whole..] == AfterWhole(n)
    ensures n.point <==> whole < |s| && s[whole] == DOT
    ensures var end := if n.point then DigitsEnd(s, whole + 1) else whole;
      && (n.point ==> s[whole + 1..end] == n.places && end == whole + 1 + |n.places|)
      && Exponent(s, end) == (|s|, ExponentValue(n.exponent))
  {
    hide ValidExponent, ExponentText, ExponentValue, Exponent, DigitsEnd, AllDigits, NumeralText;
    var x := ExponentText(n.exponent);
    ExponentFirst(n.exponent);
    if n.point {
      PointThere(s, whole, n.places, x);
      DigitsEndIs(s, whole + 1, n.places, x);
      ExponentIs(s, whole + 1 + |n.places|, n.exponent);
    } else {
      assert s[whole..] == [] + x == x;
      assert x != [] ==> s[whole] == s[whole..][0];
      ExponentIs(s, whole, n.exponent);
    }
  }

  lemma NumeralParts(n: Numeral)
    requires ValidNumeral(n)
    ensures var s, start := NumeralText(n), if n.negative then 1 else 0;
      && s != [] && s[start..] == n.whole + AfterWhole(n) && (s[0] == MINUS <==> n.negative) && s[0] != PLUS
      && (AfterWhole(n) != [] ==> !IsDigit(AfterWhole(n)[0]))
  {
    hide ExponentText, ValidExponent;
    var s := NumeralText(n);
    ExponentFirst(n.exponent);
    if !n.negative { assert s[0] == n.whole[0]; }
  }

  lemma TenthOfQuotient(a: real, p: real)
    requires p > 0.0
    ensures a / (10.0 * p) == a / p / 10.0
  {
    var q, r := a / p, a / (10.0 * p);
    assert q * p == a == r * (10.0 * p) == (10.0 * r) * p;
    assert (q - 10.0 * r) * p == 0.0;
  }

  /** Scaling by one more power of ten. */
  lemma ScaleUp(m: int, e: int)
    ensures Scale(m, e + 1) == 10.0 * Scale(m, e)
  {
    if e >= 0 {
      assert m * Pow10(e + 1) == m * (10 * Pow10(e)) == 10 * (m * Pow10(e));
    } else if e == -1 {
      assert Pow10(1) == 10 * Pow10(0) && Pow10(0) == 1;
    } else {
      TenthOfQuotient(m as real, Pow10(-e - 1) as real);
      assert Pow10(-e) == 10 * Pow10(-e - 1);
    }
  }

  lemma QuotientNegated(a: real, p: real)
    requires p > 0.0
    ensures -a / p == -(a / p)
  {
    var q, r := a / p, -a / p;
    assert q * p == a && r * p == -a;
    assert (q + r) * p == q * p + r * p == 0.0;
  }

  lemma ScaleNegated(m: int, e: int)
    ensures Scale(-m, e) == -Scale(m, e)
  {
    if e >= 0 {
      assert (-m) * Pow10(e) == -(m * Pow10(e));
    } else {
      assert (-m) as real == -(m as real);
      QuotientNegated(m as real, Pow10(-e) as real);
    }
  }

  lemma {:induction false} ScaleTimesTen(m: int, k: int, e: int)
    ensures Scale(m, k + e) == TimesTen(Scale(m, k), e)
    decreases if e < 0 then -e else e
  {
    hide Scale;
    if e > 0 {
      ScaleTimesTen(m, k, e - 1);
      ScaleUp(m, k + e - 1);
    } else if e < 0 {
      ScaleTimesTen(m, k, e + 1);
      ScaleUp(m, k + e);
    }
  }

  /** Whole digits and places together, divided by a ten for every place. */
  lemma {:induction false} PlacesScaled(s: Text, t: Text)
    requires AllDigits(s) && AllDigits(t)
    ensures AllDigits(s + t) && Scale(NatOf(s + t), -|t|) == WholeValue(s) as real + PlacesValue(t)
    decreases |t|
  {
    hide Scale, NatOf, WholeValue;
    if t == [] {
      assert s + t == s;
      WholeIs(s);
      ScaleNothing(NatOf(s));
    } else {
      var more := s + [t[0]];
      assert more + t[1..] == s + t;
      PlacesScaled(more, t[1..]);
      ScaleUp(NatOf(s + t), -|t|);
      WholeMore(s, t[0]);
    }
  }

  lemma ScaleNothing(m: int)
    ensures Scale(m, 0) == m as real
  {
  }

  lemma {:induction false} WholeMore(s: Text, b: byte)
    ensures WholeValue(s + [b]) == 10 * WholeValue(s) + DigitValue(b)
  {
    assert (s + [b])[..|s|] == s;
  }

  /** What strtod computes from all digits at once is the value of the numeral. */
  lemma ValueScaled(n: Numeral, e: int)
    requires AllDigits(n.whole) && AllDigits(n.places)
    ensures AllDigits(n.whole + n.places)
    ensures var v, m: int := WholeValue(n.whole) as real + PlacesValue(n.places), NatOf(n.whole + n.places);
      Scale(if n.negative then -m else m, e - |n.places|) == TimesTen(if n.negative then -v else v, e)
  {
    hide Scale, NatOf, WholeValue, PlacesValue, TimesTen;
    PlacesScaled(n.whole, n.places);
    var m: int := NatOf(n.whole + n.places);
    ScaleNegated(m, -|n.places|);
    ScaleTimesTen(if n.negative then -m else m, -|n.places|, e);
  }

  /** strtod on a text of which the parts are known. */
  lemma StrtodOf(s: Text, negative: bool, start: nat, whole: nat, point: bool, end: nat, e: int)
    requires s != [] && s[0] != PLUS && (s[0] == MINUS <==> negative) && start == if negative then 1 else 0
    requires start <= whole <= |s| && DigitsEnd(s, start) == whole && (point <==> whole < |s| && s[whole] == DOT)
    requires whole <= end <= |s| && if point then whole < end && DigitsEnd(s, whole + 1) == end else end == whole
    requires Exponent(s, end) == (|s|, e) && (start < whole || whole + 1 < end)
    ensures var left, right := s[start..whole], if point then s[whole + 1..end] else [];
      && AllDigits(left + right)
      && var m: int := NatOf(left + right);
      Strtod(s) == Conversion(|s|, Scale(if negative then -m else m, e - |right|))
  {
    hide Exponent, DigitsEnd, NatOf, Scale;
    var left, right := s[start..whole], if point then s[whole + 1..end] else [];
    assert forall k | 0 <= k < |left| :: IsDigit(left[k]);
    assert forall k | 0 <= k < |right| :: IsDigit(right[k]);
  }

  /** strtod converts a numeral to its value and takes all of it. */
  lemma StrtodNumeral(n: Numeral)
    requires ValidNumeral(n)
    ensures Strtod(NumeralText(n)) == Conversion(|NumeralText(n)|, NumeralValue(n))
  {
    hide ValidExponent, ExponentValue, Exponent, DigitsEnd, NatOf, Scale, NumeralText, AfterWhole, WholeValue,
      PlacesValue, TimesTen, Strtod, AllDigits;
    var s := NumeralText(n);
    var start := if n.negative then 1 else 0;
    var whole := start + |n.whole|;
    var end := if n.point then whole + 1 + |n.places| else whole;
    NumeralParts(n);
    DigitsEndIs(s, start, n.whole, AfterWhole(n));
    PlacesIs(s, whole, n);
    StrtodOf(s, n.negative, start, whole, n.point, end, ExponentValue(n.exponent));
    ValueScaled(n, ExponentValue(n.exponent));
  }

  lemma NumeralBytes(n: Numeral)
    requires ValidNumeral(n)
    ensures forall i :: 0 <= i < |NumeralText(n)| ==> IsNumberByte(NumeralText(n)[i])
  {
  }

  lemma {:induction false} NumberEndRun(c: Text, off: nat, i: nat, e: nat)
    requires i <= e < |c| && e <= off + NUMBER_MAX && !IsNumberByte(c[e])
    requires forall k :: i <= k < e ==> IsNumberByte(c[k])
    ensures NumberEnd(c, off, i) == e
    decreases e - i
  {
  }

  lemma NumberComplete(c: Text, off: nat, n: Numeral)
    requires ValidNumeral(n) && At(c, off, NumeralText(n))
    requires off + |NumeralText(n)| < |c| && !IsNumberByte(c[off + |NumeralText(n)|])
    ensures ParseNumber(c, off) == Ok(Num(NumeralValue(n)), off + |NumeralText(n)|)
  {
    hide Strtod, NumeralText, NumeralValue;
    var s := NumeralText(n);
    NumeralBytes(n);
    forall k | off <= k < off + |s| ensures IsNumberByte(c[k]) { AtByte(c, off, s, k - off); }
    NumeralSize(n);
    NumberEndRun(c, off, off, off + |s|);
    StrtodNumeral(n);
  }

  lemma NumeralSize(n: Numeral)
    requires ValidNumeral(n)
    ensures 0 < |NumeralText(n)| <= NUMBER_MAX
  {
    NumeralFirst(n);
  }

  // ---- Values.

  lemma {:induction false} ValueComplete(c: Text, off: nat, k: Cst, depth: nat)
    requires Terminated(c) && depth <= NESTING_LIMIT && Valid(k, NESTING_LIMIT - depth)
    requires At(c, off, ValueText(k)) && off + |ValueText(k)| < |c|
    requires k.CNum? ==> !IsNumberByte(c[off + |ValueText(k)|])
    ensures ParseValue(c, off, depth) == Ok(Meaning(k), off + |ValueText(k)|)
    decreases k
  {
    hide At, ParseString, ParseNumber, ParseArray, ParseObject, ValidNumeral, NumeralText, NumeralValue, ValidElem,
      ValidEntry, ElemsText, EntriesText, QuotedText, StringMeaning;
    FirstByte(k, NESTING_LIMIT - depth);
    AtByte(c, off, ValueText(k), 0);
    AtEnd(c, off, ValueText(k));
    NotWord(c, off);
    match k
    case CNull =>
    case CBool(b) =>
    case CStr(ps) => StringComplete(c, off, ps);
    case CNum(n) => NumberComplete(c, off, n);
    case CArr(open, es) => ArrayComplete(c, off, open, es, depth);
    case CObj(open, ms) => ObjectComplete(c, off, open, ms, depth);
  }

  lemma {:induction false} ArrayComplete(c: Text, off: nat, open: Text, es: seq<Elem>, depth: nat)
    requires Terminated(c) && depth < NESTING_LIMIT && Gap(open)
    requires forall i :: 0 <= i < |es| ==> ValidElem(es[i], NESTING_LIMIT - depth - 1)
    requires At(c, off, ValueText(CArr(open, es))) && c[off] == LBRACKET
    ensures off + 1 < |c| && ParseArray(c, off, depth) == Ok(Arr(ElemsMeaning(es)), off + |ValueText(CArr(open, es))|)
    decreases es, 1
  {
    hide At, ParseElements, Skip, ElemsText, ValidElem;
    if es == [] {
      EmptyComplete(c, off, LBRACKET, open, RBRACKET);
    } else {
      AtSplit(c, off, [LBRACKET], ElemsText(es));
      ElemsComplete(c, off + 1, es, depth + 1);
    }
  }

  lemma {:induction false} ObjectComplete(c: Text, off: nat, open: Text, ms: seq<Entry>, depth: nat)
    requires Terminated(c) && depth < NESTING_LIMIT && Gap(open)
    requires forall i :: 0 <= i < |ms| ==> ValidEntry(ms[i], NESTING_LIMIT - depth - 1)
    requires At(c, off, ValueText(CObj(open, ms))) && c[off] == LBRACE
    ensures off + 1 < |c|
    ensures ParseObject(c, off, depth) == Ok(Obj(EntriesMeaning(ms)), off + |ValueText(CObj(open, ms))|)
    decreases ms, 1
  {
    hide At, ParseMembers, Skip, EntriesText, ValidEntry, Gap, EntriesMeaning, Meaning;
    NoEntries();
    if ms == [] {
      EmptyComplete(c, off, LBRACE, open, RBRACE);
    } else {
      AtSplit(c, off, [LBRACE], EntriesText(ms));
      EntriesComplete(c, off + 1, ms, depth + 1);
    }
  }

  lemma NoEntries()
    ensures EntriesMeaning([]) == []
  {
  }

  lemma NotWord(c: Text, off: nat)
    requires off < |c|
    ensures At(c, off, NULL_WORD) ==> c[off] == LOWER_N
    ensures At(c, off, FALSE_WORD) ==> c[off] == LOWER_F
    ensures At(c, off, TRUE_WORD) ==> c[off] == LOWER_T
  {
    if At(c, off, NULL_WORD) { AtByte(c, off, NULL_WORD, 0); }
    if At(c, off, FALSE_WORD) { AtByte(c, off, FALSE_WORD, 0); }
    if At(c, off, TRUE_WORD) { AtByte(c, off, TRUE_WORD, 0); }
  }

  lemma {:induction false} EmptyComplete(c: Text, off: nat, left: byte, open: Text, right: byte)
    requires Terminated(c) && Gap(open) && right > SPACE && At(c, off, [left] + (open + [right]))
    ensures off + 1 < |c| && Skip(c, off + 1) == off + 1 + |open| && c[off + 1 + |open|] == right
  {
    AtSplit(c, off, [left], open + [right]);
    AtSplit(c, off + 1, open, [right]);
    AtByte(c, off + 1 + |open|, [right], 0);
    SkipBlanks(c, off + 1, open);
  }

  /** Blanks before a byte that is not blank. */
  lemma {:induction false} Blanks(c: Text, off: nat, w: Text)
    requires At(c, off, w) && off + |w| < |c| && Gap(w) && c[off + |w|] > SPACE
    ensures off < |c| && Skip(c, off) == off + |w|
  {
    SkipBlanks(c, off, w);
  }

  lemma QuotedFirst(ps: seq<Piece>)
    ensures QuotedText(ps) != [] && QuotedText(ps)[0] == QUOTE
  {
  }

  /** The blanks after a value, and the separator or bracket behind them. */
  lemma AfterValue(c: Text, n: nat, after: Text, close: byte, more: Text)
    requires At(c, n, after + ([close] + more)) && Gap(after) && close > SPACE && !IsNumberByte(close)
    ensures n < |c| && Skip(c, n) == n + |after| && c[n + |after|] == close
    ensures !IsNumberByte(c[n])
    ensures n + |after| + 1 <= |c| && At(c, n + |after| + 1, more)
    ensures Terminated(c) && close != NUL ==> n + |after| + 1 < |c|
  {
    hide Skip, At;
    AtSplit(c, n, after, [close] + more);
    AtSplit(c, n + |after|, [close], more);
    AtByte(c, n + |after|, [close], 0);
    AtEnd(c, n + |after| + 1, more);
    Blanks(c, n, after);
    if after != [] { AtByte(c, n, after, 0); }
  }

  /** One round of the array loop, as an equation. */
  lemma ElementsStep(c: Text, off: nat, depth: nat, v: Tree, n: nat)
    requires Terminated(c) && off < |c| && n < |c| && ParseValue(c, off, depth) == Ok(v, n)
    ensures var m := Skip(c, n);
      && (c[m] == RBRACKET ==> ParseElements(c, off, depth) == Ok([v], m + 1))
      && (c[m] == COMMA && m + 1 < |c| ==>
        var r := ParseElements(c, Skip(c, m + 1), depth);
        r.Ok? ==> ParseElements(c, off, depth) == Ok([v] + r.value, r.next))
  {
    hide ParseValue, Skip;
  }

  lemma MembersStep(c: Text, off: nat, depth: nat, v: Member, n: nat)
    requires Terminated(c) && off < |c| && n < |c| && ParseMember(c, off, depth) == Ok(v, n)
    ensures var m := Skip(c, n);
      && (c[m] == RBRACE ==> ParseMembers(c, off, depth) == Ok([v], m + 1))
      && (c[m] == COMMA && m + 1 < |c| ==>
        var r := ParseMembers(c, Skip(c, m + 1), depth);
        r.Ok? ==> ParseMembers(c, off, depth) == Ok([v] + r.value, r.next))
  {
    hide ParseMember, Skip;
  }

  lemma MemberStep(c: Text, off: nat, depth: nat, key: Text, n: nat, v: Tree, e: nat)
    requires Terminated(c) && off < |c| && n < |c|
    requires ParseString(c, off) == Ok(key, n)
    requires c[Skip(c, n)] == COLON && Skip(c, n) + 1 < |c|
    requires ParseValue(c, Skip(c, Skip(c, n) + 1), depth) == Ok(v, e)
    ensures ParseMember(c, off, depth) == Ok(Member(key, v), e)
  {
    hide ParseValue, ParseString, Skip;
  }

  lemma {:induction false} ElemComplete(c: Text, off: nat, e: Elem, depth: nat, close: byte, more: Text)
    requires Terminated(c) && depth <= NESTING_LIMIT && ValidElem(e, NESTING_LIMIT - depth)
    requires close > SPACE && !IsNumberByte(close)
    requires At(c, off, e.before + (ValueText(e.v) + (e.after + ([close] + more))))
    ensures var n := off + |e.before| + |ValueText(e.v)|;
      && off < |c| && n < |c| && Skip(c, off) == off + |e.before| && c[Skip(c, off)] != RBRACKET
      && ParseValue(c, Skip(c, off), depth) == Ok(Meaning(e.v), n)
      && Skip(c, n) == n + |e.after| && c[n + |e.after|] == close
      && n + |e.after| + 1 < |c| && At(c, n + |e.after| + 1, more)
    decreases e
  {
    hide At, ParseValue, Skip, ValueText, Meaning, Valid;
    var v := ValueText(e.v);
    var rest := e.after + ([close] + more);
    AtSplit(c, off, e.before, v + rest);
    AtSplit(c, off + |e.before|, v, rest);
    FirstByte(e.v, NESTING_LIMIT - depth);
    var n := off + |e.before| + |v|;
    AfterValue(c, n, e.after, close, more);
    AtByte(c, off + |e.before|, v, 0);
    Blanks(c, off, e.before);
    ValueComplete(c, off + |e.before|, e.v, depth);
  }

  lemma {:induction false} ElemsShape(es: seq<Elem>, close: byte, more: Text)
    requires es != [] && close == (if |es| == 1 then RBRACKET else COMMA)
    requires more == if |es| == 1 then [] else ElemsText(es[1..])
    ensures ElemsText(es) == es[0].before + (ValueText(es[0].v) + (es[0].after + ([close] + more)))
  {
    assert [close] + more == if |es| == 1 then [RBRACKET] else [COMMA] + ElemsText(es[1..]);
  }

  lemma {:induction false} EntriesShape(ms: seq<Entry>, close: byte, more: Text)
    requires ms != [] && close == (if |ms| == 1 then RBRACE else COMMA)
    requires more == if |ms| == 1 then [] else EntriesText(ms[1..])
    ensures EntriesText(ms) == EntryText(ms[0]) + (ms[0].after + ([close] + more))
  {
    assert [close] + more == if |ms| == 1 then [RBRACE] else [COMMA] + EntriesText(ms[1..]);
  }

  lemma {:induction false} ElemsComplete(c: Text, off: nat, es: seq<Elem>, depth: nat)
    requires Terminated(c) && depth <= NESTING_LIMIT && es != []
    requires forall i :: 0 <= i < |es| ==> ValidElem(es[i], NESTING_LIMIT - depth)
    requires At(c, off, ElemsText(es))
    ensures off < |c| && c[Skip(c, off)] != RBRACKET
    ensures ParseElements(c, Skip(c, off), depth) == Ok(ElemsMeaning(es), off + |ElemsText(es)|)
    decreases es, 0
  {
    hide At, ParseValue, ParseElements, Skip, ValueText, ElemsText, ValidElem, Meaning;
    var e := es[0];
    var close, more := if |es| == 1 then RBRACKET else COMMA, if |es| == 1 then [] else ElemsText(es[1..]);
    ElemsShape(es, close, more);
    ElemComplete(c, off, e, depth, close, more);
    var n := off + |e.before| + |ValueText(e.v)|;
    if |es| > 1 {
      ElemsComplete(c, n + |e.after| + 1, es[1..], depth);
    } else {
      assert es[1..] == [] && ElemsMeaning(es) == [Meaning(e.v)];
    }
    ElementsStep(c, Skip(c, off), depth, Meaning(e.v), n);
  }

  lemma {:induction false} EntryLength(m: Entry)
    ensures |EntryText(m)| == |m.before| + |QuotedText(m.key)| + |m.mid1| + 1 + |m.mid2| + |ValueText(m.v)|
  {
    hide QuotedText, ValueText;
  }

  lemma {:induction false} EntryShape(m: Entry, rest: Text)
    ensures EntryText(m) + rest == m.before + (QuotedText(m.key) + (m.mid1 + ([COLON] + (m.mid2 +
      (ValueText(m.v) + rest)))))
  {
    hide QuotedText, ValueText;
  }

  /** Where the parts of an entry end. */
  lemma EntryPlaces(c: Text, off: nat, m: Entry, depth: nat, close: byte, more: Text)
    requires Terminated(c) && depth <= NESTING_LIMIT && ValidEntry(m, NESTING_LIMIT - depth)
    requires close > SPACE && !IsNumberByte(close)
    requires At(c, off, EntryText(m) + (m.after + ([close] + more)))
    ensures var a := off + |m.before|;
      var b := a + |QuotedText(m.key)|;
      var colon := b + |m.mid1|;
      var v := colon + 1 + |m.mid2|;
      var n := v + |ValueText(m.v)|;
      && off < |c| && Skip(c, off) == a < |c| && c[a] == QUOTE
      && b < |c| && ParseString(c, a) == Ok(StringMeaning(m.key), b)
      && Skip(c, b) == colon && c[colon] == COLON
      && colon + 1 < |c| && Skip(c, colon + 1) == v < |c|
      && n < |c| && ParseValue(c, v, depth) == Ok(Meaning(m.v), n)
      && Skip(c, n) == n + |m.after| && c[n + |m.after|] == close
      && n + |m.after| + 1 < |c| && At(c, n + |m.after| + 1, more)
    decreases m, 0
  {
    hide At, ParseValue, ParseString, Skip, ValueText, QuotedText, EntryText, Meaning, Valid, StringMeaning;
    var q, v := QuotedText(m.key), ValueText(m.v);
    var r3 := m.after + ([close] + more);
    var r2 := m.mid2 + (v + r3);
    var r1 := m.mid1 + ([COLON] + r2);
    EntryShape(m, r3);
    AtSplit(c, off, m.before, q + r1);
    var a := off + |m.before|;
    AtSplit(c, a, q, r1);
    QuotedFirst(m.key);
    AfterValue(c, a + |q|, m.mid1, COLON, r2);
    AtByte(c, a, q, 0);
    Blanks(c, off, m.before);
    StringComplete(c, a, m.key);
    var b := a + |q| + |m.mid1| + 1;
    AtSplit(c, b, m.mid2, v + r3);
    AtSplit(c, b + |m.mid2|, v, r3);
    FirstByte(m.v, NESTING_LIMIT - depth);
    AfterValue(c, b + |m.mid2| + |v|, m.after, close, more);
    AtByte(c, b + |m.mid2|, v, 0);
    Blanks(c, b, m.mid2);
    ValueComplete(c, b + |m.mid2|, m.v, depth);
  }

  lemma {:induction false} EntryComplete(c: Text, off: nat, m: Entry, depth: nat, close: byte, more: Text)
    requires Terminated(c) && depth <= NESTING_LIMIT && ValidEntry(m, NESTING_LIMIT - depth)
    requires close > SPACE && !IsNumberByte(close)
    requires At(c, off, EntryText(m) + (m.after + ([close] + more)))
    ensures var n := off + |EntryText(m)|;
      && off < |c| && n < |c| && c[Skip(c, off)] == QUOTE
      && ParseMember(c, Skip(c, off), depth) == Ok(Member(StringMeaning(m.key), Meaning(m.v)), n)
      && Skip(c, n) == n + |m.after| && c[n + |m.after|] == close
      && n + |m.after| + 1 < |c| && At(c, n + |m.after| + 1, more)
    decreases m, 1
  {
    hide At, ParseValue, ParseString, ParseMember, Skip, ValueText, QuotedText, EntryText, Meaning, ValidEntry,
      StringMeaning;
    EntryPlaces(c, off, m, depth, close, more);
    EntryLength(m);
    var a := off + |m.before|;
    MemberStep(c, a, depth, StringMeaning(m.key), a + |QuotedText(m.key)|, Meaning(m.v), off + |EntryText(m)|);
  }

  lemma {:induction false} EntriesComplete(c: Text, off: nat, ms: seq<Entry>, depth: nat)
    requires Terminated(c) && depth <= NESTING_LIMIT && ms != []
    requires forall i :: 0 <= i < |ms| ==> ValidEntry(ms[i], NESTING_LIMIT - depth)
    requires At(c, off, EntriesText(ms))
    ensures off < |c| && c[Skip(c, off)] == QUOTE
    ensures ParseMembers(c, Skip(c, off), depth) == Ok(EntriesMeaning(ms), off + |EntriesText(ms)|)
    decreases ms, 0
  {
    hide At, ParseMember, ParseMembers, Skip, EntryText, EntriesText, ValidEntry, Meaning, StringMeaning;
    var m := ms[0];
    var close, more := if |ms| == 1 then RBRACE else COMMA, if |ms| == 1 then [] else EntriesText(ms[1..]);
    EntriesShape(ms, close, more);
    EntryComplete(c, off, m, depth, close, more);
    var n := off + |EntryText(m)|;
    if |ms| > 1 {
      EntriesComplete(c, n + |m.after| + 1, ms[1..], depth);
    } else {
      assert ms[1..] == [] && EntriesMeaning(ms) == [Member(StringMeaning(m.key), Meaning(m.v))];
    }
    MembersStep(c, Skip(c, off), depth, Member(StringMeaning(m.key), Meaning(m.v)), n);
  }

  /**
   * Parser completeness: a rendering between blanks, with or without a byte order mark,
   * parses to its meaning, also when nothing may follow it.
   */
  lemma {:induction false} TextComplete(bom: bool, before: Text, k: Cst, after: Text, requireEnd: bool)
    requires Valid(k, NESTING_LIMIT) && Gap(before) && Gap(after)
    ensures var c := (if bom then BOM else []) + (before + (ValueText(k) + (after + [NUL])));
      ParseText(c, requireEnd) == Ok(Meaning(k), if requireEnd then |c| - 1 else |c| - 1 - |after|)
  {
    hide At, ParseValue, Skip, SkipBom, ValueText, Valid, Gap;
    var mark := if bom then BOM else [];
    var v := ValueText(k);
    var c := mark + (before + (v + (after + [NUL])));
    FirstByte(k, NESTING_LIMIT);
    TextStart(mark, before, v, after);
    var n := |mark| + |before| + |v|;
    Blanks(c, |mark|, before);
    SkipBlanks(c, n, after);
    ValueComplete(c, |mark| + |before|, k, 0);
  }

  lemma AtWhole(c: Text)
    ensures At(c, 0, c)
  {
  }

  lemma BomFree(c: Text, mark: Text)
    requires (mark == BOM && At(c, 0, BOM) && |c| > 4) || (mark == [] && c != [] && c[0] < 0x80)
    ensures SkipBom(c) == |mark|
  {
    if At(c, 0, BOM) { AtByte(c, 0, BOM, 0); }
  }

  /** Where the parts of a text stand in it. */
  lemma Parts(a: Text, b: Text, v: Text, d: Text)
    ensures var c := a + (b + (v + d));
      && |c| == |a| + |b| + |v| + |d|
      && At(c, 0, a) && At(c, |a|, b) && At(c, |a| + |b|, v) && At(c, |a| + |b| + |v|, d)
      && (a == [] ==> At(c, 0, b + (v + d)))
  {
    hide At;
    var c := a + (b + (v + d));
    AtWhole(c);
    AtSplit(c, 0, a, b + (v + d));
    AtSplit(c, |a|, b, v + d);
    AtSplit(c, |a| + |b|, v, d);
  }

  lemma TextStart(mark: Text, before: Text, v: Text, after: Text)
    requires mark == [] || mark == BOM
    requires v != [] && SPACE < v[0] < 0x80 && Gap(before) && Gap(after)
    ensures var c := mark + (before + (v + (after + [NUL])));
      && Terminated(c) && SkipBom(c) == |mark|
      && At(c, |mark|, before) && At(c, |mark| + |before|, v) && At(c, |mark| + |before| + |v|, after)
      && c[|mark| + |before|] > SPACE && !IsNumberByte(c[|mark| + |before| + |v|])
      && c[|c| - 1] == NUL && |c| == |mark| + |before| + |v| + |after| + 1
  {
    hide At, SkipBom;
    var end := after + [NUL];
    var c := mark + (before + (v + end));
    Parts(mark, before, v, end);
    var n := |mark| + |before| + |v|;
    AtSplit(c, n, after, [NUL]);
    AtByte(c, |mark| + |before|, v, 0);
    AtByte(c, n, end, 0);
    AtByte(c, n + |after|, [NUL], 0);
    assert end[0] == if after == [] then NUL else after[0];
    if mark == [] {
      AtByte(c, 0, before + (v + end), 0);
    }
    BomFree(c, mark);
  }
}
