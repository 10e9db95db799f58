/** Printed text is a rendering of the printed value, so parsing it gives the value back. */
module RoundTrip {
  import opened Bytes
  import opened Unicode
  import opened Numbers
  import opened Json
  import opened PrintSpec
  import opened Grammar
  import opened ParseSpec
  import opened Completeness

  /** The spelling the printer chooses for one byte of a string. */
  function CanonPiece(b: byte): (p: Piece) {
    if b == QUOTE || b == BACKSLASH then Short(b)
    else if b == BS then Short(LOWER_B)
    else if b == FF then Short(LOWER_F)
    else if b == LF then Short(LOWER_N)
    else if b == CR then Short(LOWER_R)
    else if b == TAB then Short(LOWER_T)
    else if b < SPACE then Uni([ZERO, ZERO, HexLower(b / 16), HexLower(b % 16)])
    else Raw(b)
  }

  function CanonPieces(s: Text): seq<Piece> {
    if s == [] then [] else [CanonPiece(s[0])] + CanonPieces(s[1..])
  }

  lemma CanonPieceSpells(b: byte)
    requires b != NUL
    ensures StandardPiece(CanonPiece(b)) && PieceText(CanonPiece(b)) == Escaped(b)
    ensures PieceMeaning(CanonPiece(b)) == [b]
  {
    if b < SPACE && CanonPiece(b).Uni? {
      var h := CanonPiece(b).h;
      assert HexValue(h[2]) == b / 16 && HexValue(h[3]) == b % 16;
      assert AllHex(h) && Hex4(h) == b;
    }
  }

  lemma {:induction false} CanonPiecesSpell(s: Text)
    requires NulFree(s)
    ensures forall i :: 0 <= i < |CanonPieces(s)| ==> StandardPiece(CanonPieces(s)[i])
    ensures PiecesText(CanonPieces(s)) == EscapedText(s) && PiecesMeaning(CanonPieces(s)) == s
  {
    hide PieceText, PieceMeaning, StandardPiece, Escaped, CanonPiece;
    if s != [] {
      CanonPieceSpells(s[0]);
      CanonPiecesSpell(s[1..]);
      assert CanonPieces(s)[1..] == CanonPieces(s[1..]);
    }
  }

  /** The printer's literal is a rendering of the string. */
  lemma {:induction false} CanonString(s: Text)
    requires NulFree(s)
    ensures ValidPieces(CanonPieces(s)) && StringMeaning(CanonPieces(s)) == s && QuotedText(CanonPieces(s)) == Quoted(s)
  {
    hide CanonPieces, StandardPiece, Decodable, Paired, PiecesText, PiecesMeaning, EscapedText;
    CanonPiecesSpell(s);
    StandardPieces(CanonPieces(s));
    CStringNulFree(s);
  }

  /** Byte-level round trip: any NUL-free string survives quoting and parsing, whatever follows. */
  lemma StringRoundTrip(s: Text, rest: Text)
    requires NulFree(s)
    ensures ParseString(Quoted(s) + rest, 0) == Ok(s, |Quoted(s)|)
  {
    hide ParseString, Quoted, QuotedText, EscapedText, ValidPieces, StringMeaning;
    CanonString(s);
    AtWhole(Quoted(s) + rest);
    AtSplit(Quoted(s) + rest, 0, Quoted(s), rest);
    StringComplete(Quoted(s) + rest, 0, CanonPieces(s));
  }

  function Canon(t: Tree, fmt: bool, depth: nat): Cst {
    match t
    case Null => CNull
    case Bool(b) => CBool(b)
    case Num(v) => CNum(Integer(v.Floor))
    case Str(s) => CStr(CanonPieces(s))
    case Arr(items) => CArr([], CanonItems(items, fmt, depth + 1, true))
    case Obj(ms) => CObj(When(fmt, [LF] + Tabs(depth)), CanonMembers(ms, fmt, depth + 1))
  }

  function CanonItems(items: seq<Tree>, fmt: bool, depth: nat, first: bool): (es: seq<Elem>)
    ensures |es| == |items|
  {
    if items == [] then [] else
      [Elem(When(fmt && !first, [SPACE]), Canon(items[0], fmt, depth), [])] + CanonItems(items[1..], fmt, depth, false)
  }

  function CanonMembers(ms: seq<Member>, fmt: bool, depth: nat): (es: seq<Entry>)
    requires depth > 0
    ensures |es| == |ms|
  {
    if ms == [] then [] else [CanonMember(ms[0], fmt, depth, |ms| == 1)] + CanonMembers(ms[1..], fmt, depth)
  }

  function CanonMember(m: Member, fmt: bool, depth: nat, last: bool): (e: Entry)
    requires depth > 0
  {
    Entry(When(fmt, [LF] + Tabs(depth)), CanonPieces(m.key), [], When(fmt, [TAB]),
      Canon(m.value, fmt, depth), When(fmt && last, [LF] + Tabs(depth - 1)))
  }

  lemma {:induction false} TabsGap(n: nat)
    ensures Gap([LF] + Tabs(n)) && Gap([])
  {
  }

  /** The printer's text is one of the renderings of the value. */
  lemma {:induction false} PrintsRendering(t: Tree, fmt: bool, depth: nat, d: nat)
    requires Plain(t) && NestsWithin(t, d)
    ensures ValueText(Canon(t, fmt, depth)) == Print(t, fmt, depth)
    ensures Meaning(Canon(t, fmt, depth)) == t
    ensures Valid(Canon(t, fmt, depth), d)
    decreases t
  {
    match t
    case Arr(items) =>
      hide Canon, ValueText, Meaning, Valid, Print;
      ItemsRendering(items, fmt, depth + 1, true, d - 1);
      ArrayRendering(items, fmt, depth, d);
    case Obj(ms) =>
      hide Canon, ValueText, Meaning, Valid, Print;
      MembersRendering(ms, fmt, depth + 1, d - 1);
      ObjectRendering(ms, fmt, depth, d);
    case Str(s) =>
      hide EscapedText, CanonPieces, Quoted, QuotedText, ValidPieces, StringMeaning;
      CanonString(s);
    case Num(v) =>
      hide Decimal, Integer, ValidNumeral, NumeralText, NumeralValue;
      IntegerNumeral(v.Floor);
    case _ =>
  }

  lemma {:induction false} ArrayRendering(items: seq<Tree>, fmt: bool, depth: nat, d: nat)
    requires d > 0
    requires var es := CanonItems(items, fmt, depth + 1, true);
      && (items != [] ==> ElemsText(es) == [] + PrintItems(items, fmt, depth + 1))
      && ElemsMeaning(es) == items && forall i :: 0 <= i < |es| ==> ValidElem(es[i], d - 1)
    ensures var t := Arr(items);
      && ValueText(Canon(t, fmt, depth)) == Print(t, fmt, depth)
      && Meaning(Canon(t, fmt, depth)) == t && Valid(Canon(t, fmt, depth), d)
  {
    hide ElemsText, ElemsMeaning, CanonItems, ValidElem;
    TabsGap(0);
    if items != [] { assert [] + PrintItems(items, fmt, depth + 1) == PrintItems(items, fmt, depth + 1); }
  }

  lemma {:induction false} ObjectRendering(ms: seq<Member>, fmt: bool, depth: nat, d: nat)
    requires d > 0
    requires var es := CanonMembers(ms, fmt, depth + 1);
      && (ms != [] ==> EntriesText(es) == When(fmt, [LF]) + PrintMembers(ms, fmt, depth + 1))
      && EntriesMeaning(es) == ms && forall i :: 0 <= i < |es| ==> ValidEntry(es[i], d - 1)
    ensures var t := Obj(ms);
      && ValueText(Canon(t, fmt, depth)) == Print(t, fmt, depth)
      && Meaning(Canon(t, fmt, depth)) == t && Valid(Canon(t, fmt, depth), d)
  {
    hide EntriesText, EntriesMeaning, CanonMembers, ValidEntry, Tabs;
    TabsGap(depth);
    ObjectText(ms, fmt, depth);
  }

  lemma {:induction false} ObjectText(ms: seq<Member>, fmt: bool, depth: nat)
    requires ms != [] ==> (EntriesText(CanonMembers(ms, fmt, depth + 1)) ==
      When(fmt, [LF]) + PrintMembers(ms, fmt, depth + 1))
    ensures ValueText(Canon(Obj(ms), fmt, depth)) == Print(Obj(ms), fmt, depth)
  {
    hide EntriesText, CanonMembers, Tabs, PrintMember, Decimal, Quoted, QuotedText, CanonPieces;
    if ms == [] {
      NoMembers(fmt, depth + 1);
      var open := When(fmt, [LF] + Tabs(depth));
      assert ValueText(Canon(Obj(ms), fmt, depth)) == [LBRACE] + (open + [RBRACE]);
      assert open + [RBRACE] == When(fmt, [LF]) + (When(fmt, Tabs(depth)) + [RBRACE]);
    } else {
      hide PrintMembers;
    }
  }

  lemma {:induction false} NoMembers(fmt: bool, depth: nat)
    requires depth > 0
    ensures PrintMembers([], fmt, depth) == When(fmt, Tabs(depth - 1)) + [RBRACE] && CanonMembers([], fmt, depth) == []
  {
  }

  lemma ItemsRendering(items: seq<Tree>, fmt: bool, depth: nat, first: bool, d: nat)
    requires forall i :: 0 <= i < |items| ==> Plain(items[i]) && NestsWithin(items[i], d)
    ensures var es := CanonItems(items, fmt, depth, first);
      && (items != [] ==> ElemsText(es) == When(fmt && !first, [SPACE]) + PrintItems(items, fmt, depth))
      && ElemsMeaning(es) == items
      && forall i :: 0 <= i < |es| ==> ValidElem(es[i], d)
    decreases items
  {
    hide Print, Canon, ValueText, Meaning, Plain, NestsWithin, Valid;
    if items != [] {
      PrintsRendering(items[0], fmt, depth, d);
      ItemsRendering(items[1..], fmt, depth, false, d);
      var es := CanonItems(items, fmt, depth, first);
      assert es[1..] == CanonItems(items[1..], fmt, depth, false);
      ItemsText(items, fmt, depth, first);
    }
  }

  lemma {:induction false} ItemsText(items: seq<Tree>, fmt: bool, depth: nat, first: bool)
    requires items != []
    requires ValueText(Canon(items[0], fmt, depth)) == Print(items[0], fmt, depth)
    requires |items| > 1 ==> (ElemsText(CanonItems(items[1..], fmt, depth, false)) ==
      When(fmt, [SPACE]) + PrintItems(items[1..], fmt, depth))
    ensures ElemsText(CanonItems(items, fmt, depth, first)) ==
      When(fmt && !first, [SPACE]) + PrintItems(items, fmt, depth)
  {
    hide Print, Canon, ValueText;
    var es := CanonItems(items, fmt, depth, first);
    assert es[1..] == CanonItems(items[1..], fmt, depth, false);
    var rest := if |items| == 1 then [RBRACKET] else [COMMA] + ElemsText(es[1..]);
    assert rest == Separator(|items| > 1, fmt) + PrintItems(items[1..], fmt, depth);
    assert es[0].after + rest == rest;
  }

  lemma MembersRendering(ms: seq<Member>, fmt: bool, depth: nat, d: nat)
    requires depth > 0
    requires forall i :: 0 <= i < |ms| ==> NulFree(ms[i].key) && Plain(ms[i].value) && NestsWithin(ms[i].value, d)
    ensures var es := CanonMembers(ms, fmt, depth);
      && (ms != [] ==> EntriesText(es) == When(fmt, [LF]) + PrintMembers(ms, fmt, depth))
      && EntriesMeaning(es) == ms
      && forall i :: 0 <= i < |es| ==> ValidEntry(es[i], d)
    decreases ms
  {
    hide Print, Canon, ValueText, EntryText, Meaning, Plain, NestsWithin, Valid, NulFree, PrintMember, PrintMembers,
      CanonPieces, QuotedText, Quoted, EntriesText, Tabs, EndOfMember, ValidPieces, StringMeaning;
    if ms != [] {
      CanonString(ms[0].key);
      PrintsRendering(ms[0].value, fmt, depth, d);
      MemberText(ms[0], fmt, depth, |ms| == 1);
      TabsGap(depth);
      TabsGap(depth - 1);
      MembersRendering(ms[1..], fmt, depth, d);
      var es := CanonMembers(ms, fmt, depth);
      assert es[1..] == CanonMembers(ms[1..], fmt, depth);
      MembersText(ms, fmt, depth);
    }
  }

  lemma {:induction false} MemberText(m: Member, fmt: bool, depth: nat, last: bool)
    requires depth > 0
    requires QuotedText(CanonPieces(m.key)) == Quoted(m.key)
    requires ValueText(Canon(m.value, fmt, depth)) == Print(m.value, fmt, depth)
    ensures EntryText(CanonMember(m, fmt, depth, last)) == When(fmt, [LF]) + PrintMember(m, fmt, depth)
  {
    hide Print, Canon, ValueText, Quoted, QuotedText;
    var q, v := Quoted(m.key), Print(m.value, fmt, depth);
    if fmt {
      var rest := [COLON] + ([TAB] + v);
      assert EntryText(CanonMember(m, fmt, depth, last)) == ([LF] + Tabs(depth)) + (q + ([] + rest));
      assert ([LF] + Tabs(depth)) + (q + ([] + rest)) == [LF] + (Tabs(depth) + (q + ([COLON] + [TAB] + v)));
    } else {
      var rest := [COLON] + ([] + v);
      assert EntryText(CanonMember(m, fmt, depth, last)) == [] + (q + ([] + rest));
      assert [] + (q + ([] + rest)) == [] + ([] + (q + ([COLON] + [] + v)));
    }
  }

  lemma {:induction false} MemberEnd(ms: seq<Member>, fmt: bool, depth: nat, after: Text, rest: Text)
    requires ms != [] && depth > 0 && after == When(fmt && |ms| == 1, [LF] + Tabs(depth - 1))
    requires |ms| == 1 ==> rest == [RBRACE]
    requires |ms| > 1 ==> rest == [COMMA] + (When(fmt, [LF]) + PrintMembers(ms[1..], fmt, depth))
    ensures after + rest == EndOfMember(|ms| > 1, fmt) + PrintMembers(ms[1..], fmt, depth)
  {
    hide PrintMember;
    if |ms| == 1 {
      assert PrintMembers(ms[1..], fmt, depth) == When(fmt, Tabs(depth - 1)) + [RBRACE];
      assert EndOfMember(false, fmt) == When(fmt, [LF]);
    }
  }

  lemma {:induction false} MembersText(ms: seq<Member>, fmt: bool, depth: nat)
    requires ms != [] && depth > 0
    requires EntryText(CanonMember(ms[0], fmt, depth, |ms| == 1)) == When(fmt, [LF]) + PrintMember(ms[0], fmt, depth)
    requires |ms| > 1 ==> (EntriesText(CanonMembers(ms[1..], fmt, depth)) ==
      When(fmt, [LF]) + PrintMembers(ms[1..], fmt, depth))
    ensures EntriesText(CanonMembers(ms, fmt, depth)) == When(fmt, [LF]) + PrintMembers(ms, fmt, depth)
  {
    hide PrintMember, EntryText, EndOfMember;
    var es := CanonMembers(ms, fmt, depth);
    assert es[1..] == CanonMembers(ms[1..], fmt, depth);
    var rest := if |ms| == 1 then [RBRACE] else [COMMA] + EntriesText(es[1..]);
    MemberEnd(ms, fmt, depth, es[0].after, rest);
  }

  /**
   * Full text round trip: printing a plain value, formatted or not, and parsing the
   * NUL-terminated text returns the same value and leaves nothing over.
   */
  lemma {:induction false} PrintParse(t: Tree, fmt: bool)
    requires Plain(t) && NestsWithin(t, NESTING_LIMIT)
    ensures ParseText(Print(t, fmt, 0) + [NUL], true) == Ok(t, |Print(t, fmt, 0)|)
  {
    hide *;
    PrintsRendering(t, fmt, 0, NESTING_LIMIT);
    var k := Canon(t, fmt, 0);
    TabsGap(0);
    TextComplete(false, [], k, [], true);
    var text := ValueText(k) + [NUL];
    assert [] + ([] + (ValueText(k) + ([] + [NUL]))) == text;
  }

  /** What the parser returns the printer takes, if its numbers are whole. */
  lemma {:induction false} ParsedPlain(t: Tree, d: nat)
    requires Sound(t, d) && Whole(t)
    ensures Plain(t)
  {
    match t
    case Arr(items) => forall i | 0 <= i < |items| ensures Plain(items[i]) { ParsedPlain(items[i], d - 1); }
    case Obj(ms) =>
      forall i | 0 <= i < |ms| ensures NulFree(ms[i].key) && Plain(ms[i].value) {
        assert SoundMember(ms[i], d - 1);
        ParsedPlain(ms[i].value, d - 1);
      }
    case _ =>
  }

  /** Any accepted bytes, printed and parsed again, give the value they gave at first. */
  lemma {:induction false} Reparse(c: Text, requireEnd: bool, fmt: bool)
    requires Terminated(c) && ParseText(c, requireEnd).Ok? && Whole(ParseText(c, requireEnd).value)
    ensures var t := ParseText(c, requireEnd).value;
      ParseText(Print(t, fmt, 0) + [NUL], true) == Ok(t, |Print(t, fmt, 0)|)
  {
    hide ParseValue, Skip, SkipBom, Print, Sound, Whole, Plain, NestsWithin;
    var t := ParseText(c, requireEnd).value;
    ValueSound(c, Skip(c, SkipBom(c)), 0);
    SoundNests(t, NESTING_LIMIT);
    ParsedPlain(t, NESTING_LIMIT);
    PrintParse(t, fmt);
  }
}
