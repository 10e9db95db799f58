/**
 * The texts that denote JSON values, as concrete syntax trees: every choice of blanks,
 * escapes and digits is a value of `Cst`, `ValueText` spells it out and `Meaning` is the
 * tree it denotes. This is RFC 8259 (sections 2 to 7) with what cJSON allows beyond it.
 * Nothing here mentions the parser or the printer.
 */
module Grammar {
  import opened Bytes
  import opened Unicode
  import opened Numbers
  import opened Json

  // ---- Strings.

  /**
   * A part of a string literal: a byte, a short escape, a `\u` escape, a surrogate pair.
   * `Lone` is a backslash in front of the closing quote, read as an escaped quote.
   */
  datatype Piece = Raw(b: byte) | Short(e: byte) | Uni(h: Text) | Pair(h1: Text, h2: Text) | Lone

  function ShortMeaning(e: byte): (b: byte) {
    if e == LOWER_B then BS else if e == LOWER_F then FF else if e == LOWER_N then LF
    else if e == LOWER_R then CR else if e == LOWER_T then TAB else e
  }

  predicate IsShort(e: byte) {
    e == QUOTE || e == BACKSLASH || e == SLASH || e == LOWER_B || e == LOWER_F
    || e == LOWER_N || e == LOWER_R || e == LOWER_T
  }

  /** Four bytes behind `\u` that are no hexadecimal digits count as zero. */
  predicate ValidPiece(p: Piece) {
    match p
    case Raw(b) => b != BACKSLASH
    case Short(e) => IsShort(e)
    case Uni(h) => |h| == 4 && IsScalar(Hex4(h))
    case Pair(h1, h2) => |h1| == 4 && |h2| == 4 && IsHigh(Hex4(h1)) && IsLow(Hex4(h2))
    case Lone => true
  }

  function PieceText(p: Piece): (s: Text)
    ensures s != []
  {
    match p
    case Raw(b) => [b]
    case Short(e) => [BACKSLASH, e]
    case Uni(h) => [BACKSLASH, LOWER_U] + h
    case Pair(h1, h2) => [BACKSLASH, LOWER_U] + h1 + [BACKSLASH, LOWER_U] + h2
    case Lone => [BACKSLASH]
  }

  function PieceMeaning(p: Piece): (s: Text) {
    if !ValidPiece(p) then [] else
      match p
      case Raw(b) => [b]
      case Short(e) => [ShortMeaning(e)]
      case Uni(h) => Utf8(Hex4(h))
      case Pair(h1, h2) => Utf8(PairValue(Hex4(h1), Hex4(h2)))
      case Lone => [QUOTE]
  }

  function PiecesText(ps: seq<Piece>): Text {
    if ps == [] then [] else PieceText(ps[0]) + PiecesText(ps[1..])
  }

  function PiecesMeaning(ps: seq<Piece>): Text {
    if ps == [] then [] else PieceMeaning(ps[0]) + PiecesMeaning(ps[1..])
  }

  predicate Decodable(ps: seq<Piece>) {
    forall i :: 0 <= i < |ps| ==> ValidPiece(ps[i]) && (ps[i].Lone? ==> i == |ps| - 1)
  }

  /** Taking each backslash with the byte behind it leaves no quote and no backslash over. */
  predicate Paired(s: Text) {
    s == [] || (
      if s[0] == BACKSLASH then |s| > 1 && Paired(s[2..]) else s[0] != QUOTE && Paired(s[1..]))
  }

  /** The two passes over a literal group its bytes differently; both must work out. */
  predicate ValidPieces(ps: seq<Piece>) { Decodable(ps) && Paired(PiecesText(ps)) }

  function QuotedText(ps: seq<Piece>): Text { [QUOTE] + (PiecesText(ps) + [QUOTE]) }

  /** A C string ends at its first NUL. */
  function StringMeaning(ps: seq<Piece>): Text { CString(PiecesMeaning(ps)) }

  /** The pieces of section 7 of RFC 8259: in them the two passes agree. */
  predicate StandardPiece(p: Piece) {
    match p
    case Raw(b) => b >= SPACE && b != QUOTE && b != BACKSLASH
    case Short(e) => IsShort(e)
    case Uni(h) => AllHex(h) && IsScalar(Hex4(h))
    case Pair(h1, h2) => AllHex(h1) && AllHex(h2) && IsHigh(Hex4(h1)) && IsLow(Hex4(h2))
    case Lone => false
  }

  lemma {:induction false} PairedPlain(s: Text, t: Text)
    requires forall i :: 0 <= i < |s| ==> s[i] != QUOTE && s[i] != BACKSLASH
    ensures Paired(s + t) == Paired(t)
    decreases |s|
  {
    if s == [] {
      assert s + t == t;
    } else {
      PairedPlain(s[1..], t);
      assert (s + t)[1..] == s[1..] + t;
    }
  }

  lemma {:induction false} PairedEscape(e: byte, t: Text)
    ensures Paired([BACKSLASH, e] + t) == Paired(t)
  {
    assert ([BACKSLASH, e] + t)[2..] == t;
  }

  lemma {:induction false} PairedUni(h: Text, t: Text)
    requires AllHex(h)
    ensures Paired([BACKSLASH, LOWER_U] + h + t) == Paired(t)
  {
    assert forall i :: 0 <= i < |h| ==> IsHex(h[i]);
    PairedPlain(h, t);
    PairedEscape(LOWER_U, h + t);
    assert [BACKSLASH, LOWER_U] + h + t == [BACKSLASH, LOWER_U] + (h + t);
  }

  lemma {:induction false} PairedPiece(p: Piece, t: Text)
    requires StandardPiece(p)
    ensures ValidPiece(p) && !p.Lone? && Paired(PieceText(p) + t) == Paired(t)
  {
    hide Paired, Hex4;
    match p
    case Raw(b) => PairedPlain([b], t);
    case Short(e) => PairedEscape(e, t);
    case Uni(h) => PairedUni(h, t);
    case Pair(h1, h2) =>
      var second := [BACKSLASH, LOWER_U] + h2;
      PairedUni(h2, t);
      PairedUni(h1, second + t);
      assert PieceText(p) + t == [BACKSLASH, LOWER_U] + h1 + (second + t);
  }

  lemma StandardPieces(ps: seq<Piece>)
    requires forall i :: 0 <= i < |ps| ==> StandardPiece(ps[i])
    ensures ValidPieces(ps)
    decreases |ps|
  {
    hide Paired, StandardPiece, ValidPiece, PieceText;
    if ps == [] {
      PairedEmpty();
    } else {
      StandardPieces(ps[1..]);
      PairedPiece(ps[0], PiecesText(ps[1..]));
      assert forall i | 0 < i < |ps| :: ps[i] == ps[1..][i - 1];
    }
  }

  lemma PairedEmpty()
    ensures Paired([])
  {
  }

  // ---- Numbers.

  /** Digits, possibly with a point among them, and possibly an exponent. */
  datatype Numeral = Numeral(negative: bool, whole: Text, point: bool, places: Text, exponent: ExponentPart)
  datatype ExponentPart = NoExponent | ExponentPart(e: byte, sign: Text, digits: Text)

  predicate AllDigits(s: Text) { forall i :: 0 <= i < |s| ==> IsDigit(s[i]) }

  predicate ValidExponent(x: ExponentPart) {
    x.ExponentPart? ==>
      && (x.e == LOWER_E || x.e == UPPER_E) && (x.sign == [] || x.sign == [PLUS] || x.sign == [MINUS])
      && x.digits != [] && AllDigits(x.digits)
  }

  predicate ValidNumeral(n: Numeral) {
    && AllDigits(n.whole) && AllDigits(n.places) && (!n.point ==> n.places == [])
    && n.whole + n.places != [] && (!n.negative ==> n.whole != [])
    && ValidExponent(n.exponent) && |NumeralText(n)| <= NUMBER_MAX
  }

  function ExponentText(x: ExponentPart): Text {
    if x.NoExponent? then [] else [x.e] + (x.sign + x.digits)
  }

  function NumeralText(n: Numeral): Text {
    var sign, places := if n.negative then [MINUS] else [], if n.point then [DOT] + n.places else [];
    sign + (n.whole + (places + ExponentText(n.exponent)))
  }

  // What a numeral denotes, digit by digit.

  function DigitValue(b: byte): int { b as int - '0' as int }

  /** The number the digits denote. */
  function WholeValue(s: Text): int {
    if s == [] then 0 else 10 * WholeValue(s[..|s| - 1]) + DigitValue(s[|s| - 1])
  }

  /** What the digits behind a point add. */
  function PlacesValue(s: Text): real {
    if s == [] then 0.0 else (DigitValue(s[0]) as real + PlacesValue(s[1..])) / 10.0
  }

  /** Raising the exponent by one multiplies by ten, lowering it by one divides. */
  function TimesTen(v: real, e: int): real
    decreases if e < 0 then -e else e
  {
    if e == 0 then v else if e > 0 then 10.0 * TimesTen(v, e - 1) else TimesTen(v, e + 1) / 10.0
  }

  function ExponentValue(x: ExponentPart): int
    requires ValidExponent(x)
  {
    if x.NoExponent? then 0 else if x.sign == [MINUS] then -WholeValue(x.digits) else WholeValue(x.digits)
  }

  function NumeralValue(n: Numeral): real
    requires ValidNumeral(n)
  {
    var v := WholeValue(n.whole) as real + PlacesValue(n.places);
    TimesTen(if n.negative then -v else v, ExponentValue(n.exponent))
  }

  /** The decimal digits of an integer. */
  function Integer(n: int): Numeral { Numeral(n < 0, Digits(if n < 0 then -n else n), false, [], NoExponent) }

  lemma IntegerNumeral(n: int)
    requires -LIMIT < n < LIMIT
    ensures ValidNumeral(Integer(n)) && NumeralText(Integer(n)) == Decimal(n) && NumeralValue(Integer(n)) == n as real
  {
    hide Digits, WholeValue;
    var m := if n < 0 then -n else n;
    DecimalLength(n);
    NatOfDigits(m);
    WholeIs(Digits(m));
    assert Digits(m) + [] == Digits(m);
  }

  lemma {:induction false} WholeIs(s: Text)
    requires AllDigits(s)
    ensures WholeValue(s) == NatOf(s)
  {
    if s != [] { WholeIs(s[..|s| - 1]); }
  }

  // ---- Values.

  /** What may stand between tokens: any bytes up to 32. */
  predicate Gap(s: Text) { forall i :: 0 <= i < |s| ==> s[i] <= SPACE }

  datatype Cst =
    | CNull
    | CBool(b: bool)
    | CNum(n: Numeral)
    | CStr(ps: seq<Piece>)
    | CArr(open: Text, elems: seq<Elem>)
    | CObj(open: Text, members: seq<Entry>)
  datatype Elem = Elem(before: Text, v: Cst, after: Text)
  datatype Entry = Entry(before: Text, key: seq<Piece>, mid1: Text, mid2: Text, v: Cst, after: Text)

  /** `d` bounds the nesting of containers. */
  predicate Valid(k: Cst, d: nat) {
    match k
    case CNum(n) => ValidNumeral(n)
    case CStr(ps) => ValidPieces(ps)
    case CArr(open, es) => d > 0 && Gap(open) && forall i :: 0 <= i < |es| ==> ValidElem(es[i], d - 1)
    case CObj(open, ms) => d > 0 && Gap(open) && forall i :: 0 <= i < |ms| ==> ValidEntry(ms[i], d - 1)
    case _ => true
  }

  predicate ValidElem(e: Elem, d: nat) { Gap(e.before) && Gap(e.after) && Valid(e.v, d) }

  predicate ValidEntry(m: Entry, d: nat) {
    && Gap(m.before) && Gap(m.mid1) && Gap(m.mid2) && Gap(m.after)
    && ValidPieces(m.key) && Valid(m.v, d)
  }

  function ValueText(k: Cst): Text {
    match k
    case CNull => NULL_WORD
    case CBool(b) => if b then TRUE_WORD else FALSE_WORD
    case CNum(n) => NumeralText(n)
    case CStr(ps) => QuotedText(ps)
    case CArr(open, es) => [LBRACKET] + (if es == [] then open + [RBRACKET] else ElemsText(es))
    case CObj(open, ms) => [LBRACE] + (if ms == [] then open + [RBRACE] else EntriesText(ms))
  }

  function ElemsText(es: seq<Elem>): (s: Text)
    requires es != []
    ensures s != []
  {
    es[0].before + (ValueText(es[0].v) + (es[0].after +
      (if |es| == 1 then [RBRACKET] else [COMMA] + ElemsText(es[1..]))))
  }

  /** An entry up to and including its value. */
  function EntryText(m: Entry): Text {
    m.before + (QuotedText(m.key) + (m.mid1 + ([COLON] + (m.mid2 + ValueText(m.v)))))
  }

  function EntriesText(ms: seq<Entry>): (s: Text)
    requires ms != []
    ensures s != []
  {
    EntryText(ms[0]) + (ms[0].after + (if |ms| == 1 then [RBRACE] else [COMMA] + EntriesText(ms[1..])))
  }

  function Meaning(k: Cst): (t: Tree) {
    match k
    case CNull => Null
    case CBool(b) => Tree.Bool(b)
    case CNum(n) => Num(if ValidNumeral(n) then NumeralValue(n) else 0.0)
    case CStr(ps) => Str(StringMeaning(ps))
    case CArr(_, es) => Arr(ElemsMeaning(es))
    case CObj(_, ms) => Obj(EntriesMeaning(ms))
  }

  function ElemsMeaning(es: seq<Elem>): (ts: seq<Tree>)
    ensures |ts| == |es|
  {
    if es == [] then [] else [Meaning(es[0].v)] + ElemsMeaning(es[1..])
  }

  function EntriesMeaning(ms: seq<Entry>): (ts: seq<Member>)
    ensures |ts| == |ms|
  {
    if ms == [] then [] else
      [Member(StringMeaning(ms[0].key), Meaning(ms[0].v))] + EntriesMeaning(ms[1..])
  }

  lemma {:induction false} FirstByte(k: Cst, d: nat)
    requires Valid(k, d)
    ensures ValueText(k) != []
    ensures var b := ValueText(k)[0];
      b > SPACE && b != RBRACKET && b != RBRACE && (k.CNull? <==> b == LOWER_N)
      && (k == CBool(false) <==> b == LOWER_F) && (k == CBool(true) <==> b == LOWER_T)
      && (k.CStr? <==> b == QUOTE) && (k.CNum? <==> b == MINUS || IsDigit(b))
      && (k.CArr? <==> b == LBRACKET) && (k.CObj? <==> b == LBRACE)
  {
    if k.CNum? { NumeralFirst(k.n); }
  }

  lemma NumeralFirst(n: Numeral)
    requires ValidNumeral(n)
    ensures NumeralText(n) != [] && (NumeralText(n)[0] == MINUS || IsDigit(NumeralText(n)[0]))
  {
    if !n.negative { assert NumeralText(n)[0] == n.whole[0]; }
  }

  // ---- The texts of RFC 8259.

  /** Section 2 */
  predicate Whitespace(s: Text) {
    forall i :: 0 <= i < |s| ==> s[i] == SPACE || s[i] == TAB || s[i] == LF || s[i] == CR
  }

  /** Section 6, of at most 63 bytes */
  predicate StandardNumeral(n: Numeral) {
    && AllDigits(n.whole) && n.whole != [] && (n.whole[0] == ZERO ==> |n.whole| == 1)
    && AllDigits(n.places) && (n.point <==> n.places != [])
    && ValidExponent(n.exponent) && |NumeralText(n)| <= NUMBER_MAX
  }

  predicate StandardString(ps: seq<Piece>) { forall i :: 0 <= i < |ps| ==> StandardPiece(ps[i]) }

  predicate Standard(k: Cst, d: nat) {
    match k
    case CNum(n) => StandardNumeral(n)
    case CStr(ps) => StandardString(ps)
    case CArr(open, es) => d > 0 && Whitespace(open) && forall i :: 0 <= i < |es| ==> StandardElem(es[i], d - 1)
    case CObj(open, ms) => d > 0 && Whitespace(open) && forall i :: 0 <= i < |ms| ==> StandardEntry(ms[i], d - 1)
    case _ => true
  }

  predicate StandardElem(e: Elem, d: nat) { Whitespace(e.before) && Whitespace(e.after) && Standard(e.v, d) }

  predicate StandardEntry(m: Entry, d: nat) {
    && Whitespace(m.before) && Whitespace(m.mid1) && Whitespace(m.mid2) && Whitespace(m.after)
    && StandardString(m.key) && Standard(m.v, d)
  }

  lemma WhitespaceGap(s: Text)
    requires Whitespace(s)
    ensures Gap(s)
  {
  }

  /** The grammar has every text of RFC 8259 within these limits. */
  lemma {:induction false} StandardValid(k: Cst, d: nat)
    requires Standard(k, d)
    ensures Valid(k, d)
    decreases k
  {
    hide Whitespace, Gap, StandardString, ValidPieces, NumeralText;
    match k
    case CStr(ps) => StringValid(ps);
    case CArr(open, es) =>
      WhitespaceGap(open);
      forall i | 0 <= i < |es| ensures ValidElem(es[i], d - 1) {
        WhitespaceGap(es[i].before);
        WhitespaceGap(es[i].after);
        StandardValid(es[i].v, d - 1);
      }
    case CObj(open, ms) =>
      WhitespaceGap(open);
      forall i | 0 <= i < |ms| ensures ValidEntry(ms[i], d - 1) {
        StringValid(ms[i].key);
        WhitespaceGap(ms[i].before);
        WhitespaceGap(ms[i].mid1);
        WhitespaceGap(ms[i].mid2);
        WhitespaceGap(ms[i].after);
        StandardValid(ms[i].v, d - 1);
      }
    case _ =>
  }

  lemma StringValid(ps: seq<Piece>)
    requires StandardString(ps)
    ensures ValidPieces(ps)
  {
    hide StandardPiece, ValidPieces;
    StandardPieces(ps);
  }
}
