/**
 * What the parser and the printer make of concrete characters. The statements name no
 * byte, word or limit of the other modules: they spell them.
 */
module Literals {
  import opened Bytes
  import opened Unicode
  import opened Numbers
  import opened Json
  import opened PrintSpec
  import opened ParseSpec
  import opened Grammar
  import opened Completeness
  import opened RoundTrip

  lemma AsciiOne(s: string)
    requires |s| == 1 && s[0] as int < 128
    ensures Ascii(s) == [s[0] as int]
  {
  }

  // ---- Numbers.

  predicate Decimals(s: Text) { forall i :: 0 <= i < |s| ==> '0' as int <= s[i] <= '9' as int }

  /** What may stand behind a numeral without being read as part of it. */
  predicate EndsNumber(b: byte) { b as char !in "0123456789+-.eE" }

  predicate Power(letter: string, sign: string, digits: Text) {
    && (letter == "" || letter == "e" || letter == "E") && (sign == "" || sign == "+" || sign == "-")
    && Decimals(digits)
    && if letter == "" then sign == "" && digits == [] else digits != []
  }

  function NumberText(negative: bool, whole: Text, point: bool, places: Text, letter: string, sign: string,
      digits: Text): Text
    requires Power(letter, sign, digits)
  {
    Ascii(if negative then "-" else "") + (whole + (
      if point then Ascii(".") + (places + (Ascii(letter) + (Ascii(sign) + digits)))
      else Ascii(letter) + (Ascii(sign) + digits)))
  }

  lemma NumberBytes(b: byte)
    requires EndsNumber(b)
    ensures !IsNumberByte(b)
  {
    assert b as char != "0123456789+-.eE"[0];
  }

  lemma PowerSpelled(letter: string, sign: string, digits: Text) returns (x: ExponentPart)
    requires Power(letter, sign, digits)
    ensures ValidExponent(x) && ExponentText(x) == Ascii(letter) + (Ascii(sign) + digits)
    ensures ExponentValue(x) == if sign == "-" then -WholeValue(digits) else WholeValue(digits)
  {
    AsciiOne("-");
    AsciiOne("+");
    x := NoExponent;
    if letter != "" {
      AsciiOne(letter);
      x := ExponentPart(letter[0] as int, Ascii(sign), digits);
    }
  }

  lemma NumeralSpelled(n: Numeral, letter: string, sign: string, digits: Text)
    requires Power(letter, sign, digits) && ExponentText(n.exponent) == Ascii(letter) + (Ascii(sign) + digits)
    ensures NumeralText(n) == NumberText(n.negative, n.whole, n.point, n.places, letter, sign, digits)
  {
    hide ExponentText, Power;
    AsciiOne("-");
    AsciiOne(".");
    var x := ExponentText(n.exponent);
    assert ([DOT] + n.places) + x == [DOT] + (n.places + x);
    assert [] + x == x;
  }

  /** A numeral is the number its digits, its point and its exponent spell. */
  lemma {:induction false} NumberSpelled(c: Text, off: nat, negative: bool, whole: Text, point: bool, places: Text,
      letter: string, sign: string, digits: Text)
    requires Decimals(whole) && Decimals(places) && Power(letter, sign, digits)
    requires (!point ==> places == []) && whole + places != [] && (!negative ==> whole != [])
    requires var text := NumberText(negative, whole, point, places, letter, sign, digits);
      |text| <= 63 && At(c, off, text) && off + |text| < |c| && EndsNumber(c[off + |text|])
    ensures var v, e := WholeValue(whole) as real + PlacesValue(places), WholeValue(digits);
      ParseNumber(c, off) == Ok(Num(TimesTen(if negative then -v else v, if sign == "-" then -e else e)),
        off + |NumberText(negative, whole, point, places, letter, sign, digits)|)
  {
    hide At, ParseNumber, WholeValue, PlacesValue, TimesTen, NumeralText, NumberText, ValidExponent, ExponentText,
      ExponentValue, EndsNumber, IsNumberByte, Power;
    var x := PowerSpelled(letter, sign, digits);
    var n := Numeral(negative, whole, point, places, x);
    NumeralSpelled(n, letter, sign, digits);
    NumberBytes(c[off + |NumeralText(n)|]);
    NumberComplete(c, off, n);
  }

  lemma {:induction false} NoLeadingZero(n: nat)
    ensures |Digits(n)| == 1 || Digits(n)[0] != '0' as int
    ensures n > 0 ==> Digits(n)[0] != '0' as int
  {
    if n >= 10 { NoLeadingZero(n / 10); }
  }

  /** A whole number is printed in decimal, without a leading zero. */
  lemma NumberPrinted(n: int, fmt: bool, depth: nat) returns (digits: Text)
    requires -1_000_000_000_000_000 < n < 1_000_000_000_000_000
    ensures Plain(Num(n as real))
    ensures Print(Num(n as real), fmt, depth) == Ascii(if n < 0 then "-" else "") + digits
    ensures Decimals(digits) && WholeValue(digits) == (if n < 0 then -n else n)
    ensures |digits| == 1 || (digits != [] && digits[0] != '0' as int)
  {
    hide Digits, WholeValue;
    var m := if n < 0 then -n else n;
    digits := Digits(m);
    NatOfDigits(m);
    WholeIs(digits);
    NoLeadingZero(m);
    AsciiOne("-");
    assert (n as real).Floor == n;
    assert Ascii("") + digits == digits;
  }

  // ---- Strings.

  lemma QuotedPiece(c: Text, off: nat, p: Piece)
    requires StandardPiece(p) && At(c, off, [QUOTE] + (PieceText(p) + [QUOTE]))
    ensures ParseString(c, off) == Ok(CString(PieceMeaning(p)), off + |PieceText(p)| + 2)
  {
    hide ParseString, StandardPiece, PieceText, PieceMeaning, ValidPieces, CString, At;
    var ps := [p];
    assert ps[1..] == [];
    assert PiecesText(ps) == PieceText(p) + [] == PieceText(p);
    assert PiecesMeaning(ps) == PieceMeaning(p) + [] == PieceMeaning(p);
    StandardPieces(ps);
    StringComplete(c, off, ps);
  }

  lemma EscapeStarts()
    ensures Ascii("\"") == [QUOTE] && Ascii("\"\\") == [QUOTE, BACKSLASH]
    ensures Ascii("\\u") == [BACKSLASH, LOWER_U] && Ascii("\"\\u") == [QUOTE, BACKSLASH, LOWER_U]
  {
  }

  lemma Grouped(h: Text, t: Text)
    ensures [QUOTE, BACKSLASH, LOWER_U] + (h + t) == [QUOTE] + (([BACKSLASH, LOWER_U] + h) + t)
  {
  }

  lemma {:induction false} EncodedWhole(bs: Text, cp: nat)
    requires Encodes(bs, cp) && cp > 0
    ensures CString(bs) == bs
  {
    CStringNulFree(bs);
  }

  lemma ShortSpelled(i: nat)
    requires i < 8
    ensures var e, m := Ascii("\"\\/bfnrt")[i], Ascii("\"\\/\U{8}\U{C}\n\r\t")[i];
      IsShort(e) && ShortMeaning(e) == m != NUL
  {
  }

  /** The eight short escapes. */
  lemma ShortEscape(c: Text, off: nat, i: nat)
    requires i < 8 && At(c, off, Ascii("\"\\") + ([Ascii("\"\\/bfnrt")[i]] + Ascii("\"")))
    ensures ParseString(c, off) == Ok([Ascii("\"\\/\U{8}\U{C}\n\r\t")[i]], off + 4)
  {
    hide ParseString, At, CString;
    var e, m := Ascii("\"\\/bfnrt")[i], Ascii("\"\\/\U{8}\U{C}\n\r\t")[i];
    EscapeStarts();
    assert [QUOTE, BACKSLASH] + ([e] + [QUOTE]) == [QUOTE] + ([BACKSLASH, e] + [QUOTE]);
    ShortSpelled(i);
    QuotedPiece(c, off, Short(e));
    CStringNulFree([m]);
  }

  lemma ZeroForm()
    ensures Utf8(0) == [NUL] && CString([NUL]) == []
  {
  }

  /** `\u` and the four digits of a code point, in any case, give its UTF-8 form; zero ends the string. */
  lemma UnicodeEscape(c: Text, off: nat, h: Text, w: nat)
    requires FourDigits(h, w) && (w < 0xD800 || 0xE000 <= w) && At(c, off, Ascii("\"\\u") + (h + Ascii("\"")))
    ensures ParseString(c, off).Ok? && ParseString(c, off).next == off + 8
    ensures if w == 0 then ParseString(c, off).value == [] else Encodes(ParseString(c, off).value, w)
  {
    hide ParseString, At, HexDigit, Hex4, AllHex, Utf8, Encodes;
    HexDenotes(h, w);
    EscapeStarts();
    Grouped(h, [QUOTE]);
    QuotedPiece(c, off, Uni(h));
    if w == 0 {
      ZeroForm();
    } else {
      EncodedWhole(Utf8(w), w);
    }
  }

  lemma HalvesValue(cp: nat)
    requires 0x1_0000 <= cp <= 0x10_FFFF
    ensures var w1, w2 := 0xD800 + (cp - 0x1_0000) / 0x400, 0xDC00 + (cp - 0x1_0000) % 0x400;
      IsHigh(w1) && IsLow(w2) && PairValue(w1, w2) == cp
  {
  }

  /** A code point above 0xFFFF is written as two such escapes, of its surrogate pair. */
  lemma PairEscape(c: Text, off: nat, h1: Text, h2: Text, cp: nat)
    requires 0x1_0000 <= cp <= 0x10_FFFF
    requires FourDigits(h1, 0xD800 + (cp - 0x1_0000) / 0x400) && FourDigits(h2, 0xDC00 + (cp - 0x1_0000) % 0x400)
    requires At(c, off, Ascii("\"\\u") + (h1 + (Ascii("\\u") + (h2 + Ascii("\"")))))
    ensures ParseString(c, off).Ok? && ParseString(c, off).next == off + 14 && Encodes(ParseString(c, off).value, cp)
  {
    hide ParseString, At, HexDigit, Hex4, AllHex, Utf8, Encodes;
    var w1, w2 := 0xD800 + (cp - 0x1_0000) / 0x400, 0xDC00 + (cp - 0x1_0000) % 0x400;
    HexDenotes(h1, w1);
    HexDenotes(h2, w2);
    EscapeStarts();
    Grouped(h1, [BACKSLASH, LOWER_U] + (h2 + [QUOTE]));
    var p := Pair(h1, h2);
    assert PieceText(p) + [QUOTE] == ([BACKSLASH, LOWER_U] + h1) + ([BACKSLASH, LOWER_U] + (h2 + [QUOTE]));
    QuotedPiece(c, off, p);
    HalvesValue(cp);
    EncodedWhole(Utf8(cp), cp);
  }

  /** A quote, a backslash and five control bytes are printed as short escapes. */
  lemma ShortPrinted(i: nat)
    requires i < 7
    ensures Escaped(Ascii("\"\\\U{8}\U{C}\n\r\t")[i]) == Ascii("\\") + [Ascii("\"\\bfnrt")[i]]
  {
    AsciiOne("\\");
  }

  lemma LowerDigit(d: nat)
    requires d < 16
    ensures HexLower(d) == Ascii("0123456789abcdef")[d]
  {
  }

  /** All others by their number, in lower-case digits. */
  lemma ControlPrinted(b: byte)
    requires b < 32 && b as char !in "\U{8}\U{C}\n\r\t"
    ensures Escaped(b) == Ascii("\\u00") + [Ascii("0123456789abcdef")[b / 16], Ascii("0123456789abcdef")[b % 16]]
  {
    LowerDigit(b / 16);
    LowerDigit(b % 16);
    assert Ascii("\\u00") == [BACKSLASH, LOWER_U, ZERO, ZERO];
  }

  lemma OtherPrinted(b: byte)
    requires b >= 32 && b as char !in "\"\\"
    ensures Escaped(b) == [b]
  {
    assert b as char != '"' && b as char != '\\';
  }

  // ---- Printed values.

  function Joined(parts: seq<Text>, separator: Text): Text {
    if parts == [] then [] else if |parts| == 1 then parts[0]
    else parts[0] + (separator + Joined(parts[1..], separator))
  }

  function ItemTexts(items: seq<Tree>, fmt: bool, depth: nat): seq<Text> {
    seq(|items|, i requires 0 <= i < |items| => Print(items[i], fmt, depth))
  }

  lemma Separators()
    ensures Ascii("[") == [LBRACKET] && Ascii("]") == [RBRACKET] && Ascii("{") == [LBRACE] && Ascii("}") == [RBRACE]
    ensures Ascii(",") == [COMMA] && Ascii(", ") == [COMMA] + [SPACE] && Ascii(",\n") == [COMMA] + [LF]
    ensures Ascii(":") == [COLON] && Ascii(":\t") == [COLON] + [TAB] && Ascii("\n") == [LF] && Ascii("\t") == [TAB]
  {
  }

  lemma {:induction false} WordsPrinted(fmt: bool, depth: nat)
    ensures Print(Null, fmt, depth) == Ascii("null")
    ensures Print(Tree.Bool(true), fmt, depth) == Ascii("true")
    ensures Print(Tree.Bool(false), fmt, depth) == Ascii("false")
  {
  }

  /** A string is its escaped bytes between quotes. */
  lemma {:induction false} StringPrinted(s: Text, fmt: bool, depth: nat)
    ensures Print(Str(s), fmt, depth) == Ascii("\"") + (EscapedText(s) + Ascii("\""))
  {
    hide EscapedText;
    AsciiOne("\"");
  }

  lemma {:induction false} ItemsJoined(items: seq<Tree>, fmt: bool, depth: nat)
    ensures PrintItems(items, fmt, depth) ==
      Joined(ItemTexts(items, fmt, depth), Ascii(if fmt then ", " else ",")) + [RBRACKET]
    decreases |items|
  {
    hide Print;
    Separators();
    if items != [] {
      ItemsJoined(items[1..], fmt, depth);
      assert ItemTexts(items, fmt, depth)[1..] == ItemTexts(items[1..], fmt, depth);
    }
  }

  /** An array is the list of its items between brackets, formatted with a blank behind each comma. */
  lemma {:induction false} ArrayPrinted(items: seq<Tree>, fmt: bool, depth: nat)
    ensures Print(Arr(items), fmt, depth) ==
      Ascii("[") + (Joined(ItemTexts(items, fmt, depth + 1), Ascii(if fmt then ", " else ",")) + Ascii("]"))
  {
    hide PrintItems, Joined, ItemTexts;
    Separators();
    ItemsJoined(items, fmt, depth + 1);
  }

  /** A member, formatted on its own line, indented by its depth and with a tab before its value. */
  function MemberLine(m: Member, fmt: bool, depth: nat): Text {
    if fmt then seq(depth, i => '\t' as int) + (Quoted(m.key) + (Ascii(":\t") + Print(m.value, fmt, depth)))
    else Quoted(m.key) + (Ascii(":") + Print(m.value, fmt, depth))
  }

  function MemberLines(ms: seq<Member>, fmt: bool, depth: nat): seq<Text> {
    seq(|ms|, i requires 0 <= i < |ms| => MemberLine(ms[i], fmt, depth))
  }

  lemma {:induction false} MemberPrinted(m: Member, fmt: bool, depth: nat)
    requires depth > 0
    ensures PrintMember(m, fmt, depth) == MemberLine(m, fmt, depth)
  {
    hide Print, Quoted;
    Separators();
    assert Tabs(depth) == seq(depth, i => '\t' as int);
  }

  /** What follows the last member: its line ends, and the brace is indented like the object. */
  function Closing(any: bool, fmt: bool, depth: nat): Text
    requires depth > 0
  {
    Ascii(if fmt && any then "\n" else "") + (seq(if fmt then depth - 1 else 0, i => '\t' as int) + [RBRACE])
  }

  lemma {:induction false} NoMembersClosed(fmt: bool, depth: nat)
    requires depth > 0
    ensures PrintMembers([], fmt, depth) == [] + Closing(false, fmt, depth)
  {
    assert Tabs(depth - 1) == seq(depth - 1, i => '\t' as int);
  }

  /** One member and its separator. */
  lemma {:induction false} OneMember(ms: seq<Member>, fmt: bool, depth: nat, rest: Text)
    requires depth > 0 && ms != []
    requires PrintMembers(ms[1..], fmt, depth) == rest + Closing(|ms| > 1, fmt, depth)
    requires |ms| == 1 ==> rest == []
    ensures PrintMembers(ms, fmt, depth) == (if |ms| == 1 then PrintMember(ms[0], fmt, depth) else
      PrintMember(ms[0], fmt, depth) + (Ascii(if fmt then ",\n" else ",") + rest)) + Closing(true, fmt, depth)
  {
    hide PrintMember;
    Separators();
    var m, end := PrintMember(ms[0], fmt, depth), Closing(|ms| > 1, fmt, depth);
    if |ms| == 1 {
      assert [] + end == end;
      assert EndOfMember(false, fmt) + end == Closing(true, fmt, depth);
    } else {
      var sep := EndOfMember(true, fmt);
      assert sep == Ascii(if fmt then ",\n" else ",");
      assert m + (sep + (rest + end)) == (m + (sep + rest)) + end;
    }
  }

  lemma {:induction false} MembersJoined(ms: seq<Member>, fmt: bool, depth: nat)
    requires depth > 0
    ensures PrintMembers(ms, fmt, depth) ==
      Joined(MemberLines(ms, fmt, depth), Ascii(if fmt then ",\n" else ",")) + Closing(ms != [], fmt, depth)
    decreases |ms|
  {
    hide PrintMember, MemberLine, Closing, PrintMembers;
    if ms == [] {
      NoMembersClosed(fmt, depth);
    } else {
      MemberPrinted(ms[0], fmt, depth);
      MembersJoined(ms[1..], fmt, depth);
      assert MemberLines(ms, fmt, depth)[1..] == MemberLines(ms[1..], fmt, depth);
      OneMember(ms, fmt, depth, Joined(MemberLines(ms[1..], fmt, depth), Ascii(if fmt then ",\n" else ",")));
    }
  }

  lemma LinesOpen(rest: Text)
    ensures [LBRACE] + (When(true, [LF]) + rest) == Ascii("{\n") + rest
  {
  }

  /** An object is the list of its members between braces. */
  lemma {:induction false} ObjectPrinted(ms: seq<Member>, depth: nat)
    ensures Print(Obj(ms), false, depth) ==
      Ascii("{") + (Joined(MemberLines(ms, false, depth + 1), Ascii(",")) + Ascii("}"))
  {
    hide PrintMembers, Joined, MemberLines;
    Separators();
    MembersJoined(ms, false, depth + 1);
    assert Closing(ms != [], false, depth + 1) == Ascii("}");
  }

  /** Formatted, the members and the closing brace stand on lines of their own. */
  lemma {:induction false} ObjectFormatted(ms: seq<Member>, depth: nat)
    ensures Print(Obj(ms), true, depth) == Ascii("{\n") + (Joined(MemberLines(ms, true, depth + 1), Ascii(",\n")) +
      (Ascii(if ms == [] then "" else "\n") + (seq(depth, i => '\t' as int) + Ascii("}"))))
  {
    hide PrintMembers, Joined, MemberLines;
    Separators();
    MembersJoined(ms, true, depth + 1);
    var lines, end := Joined(MemberLines(ms, true, depth + 1), Ascii(",\n")), Closing(ms != [], true, depth + 1);
    assert end == Ascii(if ms == [] then "" else "\n") + (seq(depth, i => '\t' as int) + Ascii("}"));
    hide Closing;
    LinesOpen(lines + end);
  }

  // ---- Parsed texts.

  /** A printed value parses between any bytes up to the blank, also behind a byte order mark. */
  lemma {:induction false} ParsedBetween(t: Tree, fmt: bool, mark: Text, before: Text, after: Text, requireEnd: bool)
    requires Plain(t) && NestsWithin(t, 1000) && (mark == [] || mark == [0xEF, 0xBB, 0xBF])
    requires forall i :: 0 <= i < |before| ==> before[i] <= ' ' as int
    requires forall i :: 0 <= i < |after| ==> after[i] <= ' ' as int
    ensures var c := mark + (before + (Print(t, fmt, 0) + (after + [0])));
      ParseText(c, requireEnd) == Ok(t, if requireEnd then |c| - 1 else |c| - 1 - |after|)
  {
    hide Print, ParseText, Plain, NestsWithin, Valid, ValueText, Meaning;
    PrintsRendering(t, fmt, 0, 1000);
    TextComplete(mark != [], before, Canon(t, fmt, 0), after, requireEnd);
  }

  /** Behind the value anything else is left alone, or refused if nothing may follow. */
  lemma {:induction false} ParsedBefore(t: Tree, fmt: bool, b: byte, rest: Text, requireEnd: bool)
    requires Plain(t) && NestsWithin(t, 1000) && b > ' ' as int && EndsNumber(b) && Terminated(rest)
    ensures var s := Print(t, fmt, 0);
      ParseText(s + ([b] + rest), requireEnd) == if requireEnd then Fail else Ok(t, |s|)
  {
    hide Print, ParseValue, Plain, NestsWithin, Valid, ValueText, Meaning, At;
    var s := Print(t, fmt, 0);
    var c := s + ([b] + rest);
    PrintsRendering(t, fmt, 0, 1000);
    var k := Canon(t, fmt, 0);
    FirstByte(k, 1000);
    AtWhole(c);
    AtSplit(c, 0, s, [b] + rest);
    AtByte(c, 0, s, 0);
    BomFree(c, []);
    ValueComplete(c, 0, k, 0);
  }

  lemma Starters(b: byte)
    requires b as char !in "\"-0123456789[{ntf"
    ensures b != QUOTE && !StartsNumber(b) && b != LBRACKET && b != LBRACE && b != LOWER_N && b != LOWER_T
      && b != LOWER_F
  {
    assert b as char != "\"-0123456789[{ntf"[0];
  }

  /** A text that does not start like a value is refused. */
  lemma RefusedStart(c: Text, requireEnd: bool)
    requires Terminated(c) && c[0] > ' ' as int && c[0] as char !in "\"-0123456789[{ntf"
    requires |c| < 3 || c[..3] != [0xEF, 0xBB, 0xBF]
    ensures ParseText(c, requireEnd) == Fail
  {
    NotWord(c, 0);
    Starters(c[0]);
  }

  // ---- The nesting limit.

  function Nested(n: nat): Tree
    requires n > 0
  {
    Arr(if n == 1 then [] else [Nested(n - 1)])
  }

  function Repeated(c: char, n: nat): Text
    requires c as int < 128
  {
    seq(n, i => c as int)
  }

  lemma {:induction false} OneItem(t: Tree, depth: nat)
    ensures Joined(ItemTexts([t], false, depth), Ascii(",")) == Print(t, false, depth)
  {
    hide Print;
    assert [t][1..] == [];
  }

  lemma {:induction false} NestedPrinted(n: nat, depth: nat, d: nat)
    requires 0 < n <= d
    ensures Print(Nested(n), false, depth) == Repeated('[', n) + Repeated(']', n)
    ensures Plain(Nested(n)) && NestsWithin(Nested(n), d)
  {
    hide Print;
    Separators();
    ArrayPrinted(Nested(n).items, false, depth);
    if n > 1 {
      NestedPrinted(n - 1, depth + 1, d - 1);
      OneItem(Nested(n - 1), depth + 1);
      var s := Repeated('[', n - 1) + Repeated(']', n - 1);
      assert [LBRACKET] + (s + [RBRACKET]) == Repeated('[', n) + Repeated(']', n);
    } else {
      assert [LBRACKET] + ([] + [RBRACKET]) == Repeated('[', n) + Repeated(']', n);
    }
  }

  /** A thousand brackets in one another are read. */
  lemma {:induction false} NestedParsed(n: nat, requireEnd: bool)
    requires 0 < n <= 1000
    ensures ParseText(Repeated('[', n) + Repeated(']', n) + [0], requireEnd) == Ok(Nested(n), 2 * n)
  {
    hide ParseText, Print, Plain, NestsWithin, Nested;
    NestedPrinted(n, 0, 1000);
    ParsedBetween(Nested(n), false, [], [], [], requireEnd);
    var s := Repeated('[', n) + Repeated(']', n);
    assert [] + ([] + (s + ([] + [0]))) == s + [0];
  }

  lemma {:induction false} TooDeep(c: Text, off: nat, depth: nat, n: nat)
    requires Terminated(c) && off + n < |c| && depth <= 1000 < depth + n
    requires forall k :: off <= k < off + n ==> c[k] == '[' as int
    ensures ParseValue(c, off, depth) == Fail
    decreases n
  {
    NotWord(c, off);
    if depth < 1000 {
      TooDeep(c, off + 1, depth + 1, n - 1);
      assert Skip(c, off + 1) == off + 1;
      assert ParseElements(c, off + 1, depth + 1) == Fail;
    }
  }

  /** One more is refused, whatever follows. */
  lemma NestedRefused(n: nat, rest: Text, requireEnd: bool)
    requires n > 1000 && Terminated(rest)
    ensures ParseText(Repeated('[', n) + rest, requireEnd) == Fail
  {
    hide ParseValue;
    var c := Repeated('[', n) + rest;
    assert forall k | 0 <= k < n :: c[k] == '[' as int;
    BomFree(c, []);
    TooDeep(c, 0, 0, n);
  }
}
