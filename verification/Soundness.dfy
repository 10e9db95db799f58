/**
 * Every accepted text is one of the grammar's, so a text is accepted exactly when the
 * grammar has it, and its value is the one the grammar gives it.
 */
module Soundness {
  import opened Bytes
  import opened Unicode
  import opened Numbers
  import opened Json
  import opened Options
  import opened ParseSpec
  import opened Grammar
  import opened Completeness

  // ---- Numbers.

  lemma SliceJoin(s: Text, i: nat, j: nat, k: nat)
    requires i <= j <= k <= |s|
    ensures s[i..k] == s[i..j] + s[j..k]
  {
  }

  lemma {:induction false} DigitRun(s: Text, i: nat)
    requires i <= |s|
    ensures AllDigits(s[i..DigitsEnd(s, i)])
  {
  }

  /** The exponent strtod finds at `i`, part by part. */
  lemma {:induction false} ExponentParts(s: Text, i: nat, signed: bool, first: nat, digits: Text)
    requires i <= |s| && Exponent(s, i).0 > i
    requires signed == (i + 1 < |s| && (s[i + 1] == PLUS || s[i + 1] == MINUS))
    requires first == (if signed then i + 2 else i + 1) && first <= Exponent(s, i).0 <= |s|
    requires digits == s[first..Exponent(s, i).0]
    ensures s[i] == LOWER_E || s[i] == UPPER_E
    ensures digits != [] && AllDigits(digits)
    ensures var e: int := NatOf(digits); Exponent(s, i).1 == if signed && s[i + 1] == MINUS then -e else e
  {
    hide NatOf, DigitsEnd;
    DigitRun(s, first);
  }

  /** What strtod takes for an exponent is one, or nothing. */
  lemma ExponentRead(s: Text, i: nat) returns (x: ExponentPart)
    requires i <= |s|
    ensures var r := Exponent(s, i);
      ValidExponent(x) && s[i..r.0] == ExponentText(x) && r.1 == ExponentValue(x)
  {
    x := NoExponent;
    var last := Exponent(s, i).0;
    if last > i {
      var signed := i + 1 < |s| && (s[i + 1] == PLUS || s[i + 1] == MINUS);
      var first := if signed then i + 2 else i + 1;
      ExponentFits(s, i);
      var sign, digits := if signed then [s[i + 1]] else [], s[first..last];
      hide Exponent, NatOf, AllDigits, WholeValue;
      ExponentParts(s, i, signed, first, digits);
      WholeIs(digits);
      x := ExponentPart(s[i], sign, digits);
      SliceJoin(s, i, i + 1, last);
      SliceJoin(s, i + 1, first, last);
      assert s[i..i + 1] == [s[i]] && s[i + 1..first] == sign;
    } else {
      NoExponentAt(s, i);
    }
  }

  lemma ExponentFits(s: Text, i: nat)
    requires i <= |s| && Exponent(s, i).0 > i
    ensures var signed := i + 1 < |s| && (s[i + 1] == PLUS || s[i + 1] == MINUS);
      i + (if signed then 2 else 1) < Exponent(s, i).0 <= |s|
  {
    hide NatOf;
  }

  lemma NoExponentAt(s: Text, i: nat)
    requires i <= |s| && Exponent(s, i).0 <= i
    ensures Exponent(s, i) == (i, 0)
  {
    hide NatOf;
  }

  /** The number strtod finds in `s`, part by part. */
  lemma StrtodParts(s: Text, n: Numeral, start: nat, whole: nat, end: nat)
    requires s != [] && StartsNumber(s[0]) && Strtod(s).length > 0
    requires start == (if s[0] == MINUS then 1 else 0) && whole == DigitsEnd(s, start)
    requires n.negative == (start == 1) && n.whole == s[start..whole] && n.point == (whole < |s| && s[whole] == DOT)
    requires end == if n.point then DigitsEnd(s, whole + 1) else whole
    requires n.places == if n.point then s[whole + 1..end] else []
    ensures AllDigits(n.whole) && AllDigits(n.places) && n.whole + n.places != [] && (!n.negative ==> n.whole != [])
    ensures var (last, e) := Exponent(s, end);
      && Strtod(s).length == last && end <= last
      && (forall k | 0 <= k < |n.whole + n.places| :: IsDigit((n.whole + n.places)[k]))
      && var m: int := NatOf(n.whole + n.places);
      Strtod(s).value == Scale(if n.negative then -m else m, e - |n.places|)
  {
    hide Exponent, NatOf, Scale, DigitsEnd;
    DigitRun(s, start);
    if n.point { DigitRun(s, whole + 1); }
    if start == 0 { DigitStarts(s); }
  }

  /** What strtod takes behind an optional minus is a numeral with its value. */
  lemma NumeralRead(s: Text) returns (n: Numeral)
    requires s != [] && StartsNumber(s[0]) && |s| <= NUMBER_MAX && Strtod(s).length > 0
    ensures ValidNumeral(n) && NumeralText(n) == s[..Strtod(s).length] && NumeralValue(n) == Strtod(s).value
  {
    hide Strtod, Exponent, ExponentText, ExponentValue, ValidExponent, NumeralText, AllDigits, NatOf, Scale,
      DigitsEnd, WholeValue, PlacesValue, TimesTen;
    var start := if s[0] == MINUS then 1 else 0;
    var whole := DigitsEnd(s, start);
    var point := whole < |s| && s[whole] == DOT;
    var end := if point then DigitsEnd(s, whole + 1) else whole;
    var x := ExponentRead(s, end);
    n := Numeral(start == 1, s[start..whole], point, if point then s[whole + 1..end] else [], x);
    StrtodParts(s, n, start, whole, end);
    NumeralSpelled(s, n, start, whole, end, Strtod(s).length);
    ValueScaled(n, ExponentValue(x));
  }

  lemma {:induction false} DigitStarts(s: Text)
    requires s != [] && IsDigit(s[0])
    ensures DigitsEnd(s, 0) > 0
  {
  }

  lemma NumeralSpelled(s: Text, n: Numeral, start: nat, whole: nat, end: nat, last: nat)
    requires start <= whole <= end <= last <= |s| && start == (if n.negative then 1 else 0)
    requires n.negative ==> s[0] == MINUS
    requires n.whole == s[start..whole] && s[end..last] == ExponentText(n.exponent)
    requires if n.point then whole < end && s[whole] == DOT && n.places == s[whole + 1..end] else end == whole
    ensures NumeralText(n) == s[..last]
  {
    hide ExponentText;
    var sign, places := if n.negative then [MINUS] else [], if n.point then [DOT] + n.places else [];
    assert sign == s[0..start];
    PlacesSpelled(s, n, whole, end);
    SliceJoin(s, 0, start, last);
    SliceJoin(s, start, whole, last);
    SliceJoin(s, whole, end, last);
    assert s[..last] == s[0..last];
  }

  lemma PlacesSpelled(s: Text, n: Numeral, whole: nat, end: nat)
    requires whole <= end <= |s|
    requires if n.point then whole < end && s[whole] == DOT && n.places == s[whole + 1..end] else end == whole
    ensures s[whole..end] == if n.point then [DOT] + n.places else []
  {
    if n.point {
      SliceJoin(s, whole, whole + 1, end);
      assert s[whole..whole + 1] == [DOT];
    }
  }

  lemma NumberRead(c: Text, off: nat) returns (n: Numeral)
    requires off < |c| && StartsNumber(c[off]) && ParseNumber(c, off).Ok?
    ensures var r := ParseNumber(c, off);
      && ValidNumeral(n) && At(c, off, NumeralText(n))
      && r == Ok(Num(NumeralValue(n)), off + |NumeralText(n)|)
  {
    hide Strtod, ValidNumeral, NumeralText, NumeralValue, NumberEnd;
    var end := NumberEnd(c, off, off);
    NumberShort(c, off, off);
    var run := c[off..end];
    NumberStarts(c, off);
    n := NumeralRead(run);
    assert run[..Strtod(run).length] == c[off..off + Strtod(run).length];
  }

  lemma {:induction false} NumberStarts(c: Text, off: nat)
    requires off < |c| && StartsNumber(c[off])
    ensures NumberEnd(c, off, off) > off
  {
  }

  lemma {:induction false} NumberShort(c: Text, off: nat, i: nat)
    requires off <= i <= |c| && i <= off + NUMBER_MAX
    ensures NumberEnd(c, off, i) <= off + NUMBER_MAX
    decreases |c| - i
  {
    if i < |c| && i < off + NUMBER_MAX && IsNumberByte(c[i]) { NumberShort(c, off, i + 1); }
  }

  // ---- Strings.

  lemma {:induction false} PairedRead(c: Text, i: nat, end: nat)
    requires ScanEnd(c, i) == Some(end)
    ensures i <= end < |c| && c[end] == QUOTE && Paired(c[i..end])
    decreases |c| - i
  {
    var s := c[i..end];
    if i < end {
      var n := if c[i] == BACKSLASH then 2 else 1;
      PairedRead(c, i + n, end);
      assert s[0] == c[i] && s[n..] == c[i + n..end];
    }
  }

  /** The bytes one round of the second pass takes are a piece. */
  lemma PieceRead(c: Text, i: nat, end: nat) returns (p: Piece)
    requires i < end < |c| && c[end] == QUOTE && NextUnit(c, i, end).Unit?
    ensures var u := NextUnit(c, i, end);
      && ValidPiece(p) && PieceMeaning(p) == u.bytes && (p.Lone? <==> i + u.length > end)
      && if p.Lone? then c[i..end] == PieceText(p) else c[i..i + u.length] == PieceText(p)
  {
    hide Utf8, Hex4, PairValue;
    if c[i] != BACKSLASH {
      p := Raw(c[i]);
    } else if i + 1 == end {
      p := Lone;
    } else if c[i + 1] != LOWER_U {
      p := Short(c[i + 1]);
    } else {
      p := HexRead(c, i, end);
    }
  }

  lemma HexRead(c: Text, i: nat, end: nat) returns (p: Piece)
    requires i < end < |c| && c[i] == BACKSLASH && c[i + 1] == LOWER_U && EscapeUnit(c, i, end).Unit?
    ensures var u := EscapeUnit(c, i, end);
      ValidPiece(p) && !p.Lone? && PieceMeaning(p) == u.bytes && c[i..i + u.length] == PieceText(p)
  {
    hide Utf8, Hex4, PairValue;
    var h := c[i + 2..i + 6];
    SliceJoin(c, i, i + 2, i + 6);
    assert c[i..i + 2] == [BACKSLASH, LOWER_U];
    if IsHigh(Hex4(h)) {
      var h2 := c[i + 8..i + 12];
      p := Pair(h, h2);
      SliceJoin(c, i, i + 6, i + 12);
      SliceJoin(c, i + 6, i + 8, i + 12);
      assert c[i + 6..i + 8] == [BACKSLASH, LOWER_U];
      assert PieceText(p) == ([BACKSLASH, LOWER_U] + h) + ([BACKSLASH, LOWER_U] + h2);
    } else {
      p := Uni(h);
    }
  }

  lemma PiecesRead(c: Text, i: nat, end: nat) returns (ps: seq<Piece>)
    requires i <= end < |c| && c[end] == QUOTE && Decode(c, i, end).Some?
    ensures Decodable(ps) && PiecesText(ps) == c[i..end] && Decode(c, i, end) == Some(PiecesMeaning(ps))
    decreases end - i
  {
    hide NextUnit, ValidPiece, PieceText, PieceMeaning;
    ps := [];
    if i < end {
      var u := NextUnit(c, i, end);
      var p := PieceRead(c, i, end);
      if i + u.length > end {
        ps := [p];
        DecodeEnd(c, i + u.length, end);
        assert ps[1..] == [] && PieceMeaning(p) + [] == PieceMeaning(p) && PieceText(p) + [] == PieceText(p);
      } else {
        var rest := PiecesRead(c, i + u.length, end);
        ps := [p] + rest;
        assert ps[1..] == rest;
        SliceJoin(c, i, i + u.length, end);
      }
    }
  }

  lemma StringRead(c: Text, off: nat) returns (ps: seq<Piece>)
    requires off < |c| && ParseString(c, off).Ok?
    ensures var r := ParseString(c, off);
      ValidPieces(ps) && At(c, off, QuotedText(ps)) && r.next == off + |QuotedText(ps)| && r.value == StringMeaning(ps)
  {
    hide Decode, ScanEnd, Decodable, Paired, PiecesText, PiecesMeaning;
    var end := ScanEnd(c, off + 1).value;
    PairedRead(c, off + 1, end);
    ps := PiecesRead(c, off + 1, end);
    SliceJoin(c, off, off + 1, end + 1);
    SliceJoin(c, off + 1, end, end + 1);
    assert c[off..off + 1] == [QUOTE] && c[end..end + 1] == [QUOTE];
  }

  lemma {:induction false} GapRun(c: Text, i: nat)
    requires i < |c|
    ensures Gap(c[i..Skip(c, i)])
    decreases |c| - i
  {
    var j := Skip(c, i);
    if j > i {
      GapRun(c, i + 1);
      assert c[i..j] == [c[i]] + c[i + 1..j];
    }
  }

  // ---- Structure.

  lemma AtSlice(c: Text, i: nat, j: nat)
    requires i <= j <= |c|
    ensures At(c, i, c[i..j])
  {
  }

  lemma AtOne(c: Text, i: nat, b: byte)
    requires i < |c| && c[i] == b
    ensures At(c, i, [b])
  {
  }

  /** Whatever parse_value accepts is in the grammar, and means what the parser returns. */
  lemma ValueRead(c: Text, off: nat, depth: nat) returns (k: Cst)
    requires Terminated(c) && off < |c| && depth <= NESTING_LIMIT && ParseValue(c, off, depth).Ok?
    ensures Valid(k, NESTING_LIMIT - depth) && At(c, off, ValueText(k))
    ensures ParseValue(c, off, depth) == Ok(Meaning(k), off + |ValueText(k)|)
    decreases |c| - off, 1
  {
    hide Skip, ParseElements, ParseMembers, ParseString, ParseNumber, At, ValidNumeral, NumeralText, NumeralValue,
      QuotedText, ValidPieces, StringMeaning, ElemsText, EntriesText;
    if At(c, off, NULL_WORD) {
      k := CNull;
    } else if At(c, off, FALSE_WORD) {
      k := CBool(false);
    } else if At(c, off, TRUE_WORD) {
      k := CBool(true);
    } else if c[off] == QUOTE {
      var ps := StringRead(c, off);
      k := CStr(ps);
    } else if StartsNumber(c[off]) {
      var n := NumberRead(c, off);
      k := CNum(n);
    } else if c[off] == LBRACKET {
      k := ArrayRead(c, off, depth);
    } else {
      k := ObjectRead(c, off, depth);
    }
  }

  lemma ArrayRead(c: Text, off: nat, depth: nat) returns (k: Cst)
    requires Terminated(c) && off + 1 < |c| && c[off] == LBRACKET && depth <= NESTING_LIMIT
    requires ParseArray(c, off, depth).Ok?
    ensures Valid(k, NESTING_LIMIT - depth) && At(c, off, ValueText(k))
    ensures ParseArray(c, off, depth) == Ok(Meaning(k), off + |ValueText(k)|)
    decreases |c| - off, 0
  {
    hide Skip, ParseElements, At, ElemsText, Gap, ValidElem;
    var o := Skip(c, off + 1);
    AtOne(c, off, LBRACKET);
    NoGap();
    if c[o] == RBRACKET {
      var open := c[off + 1..o];
      k := CArr(open, []);
      EmptyRead(c, off, LBRACKET, o, RBRACKET);
    } else {
      var es := ElemsRead(c, off + 1, depth + 1);
      k := CArr([], es);
      AtSplit(c, off, [LBRACKET], ElemsText(es));
    }
  }

  /** An empty pair of brackets. */
  lemma {:induction false} EmptyRead(c: Text, off: nat, left: byte, o: nat, right: byte)
    requires off + 1 < |c| && c[off] == left && o == Skip(c, off + 1) && c[o] == right
    ensures Gap(c[off + 1..o]) && At(c, off, [left] + (c[off + 1..o] + [right]))
  {
    hide At, Skip, Gap;
    GapRun(c, off + 1);
    AtOne(c, off, left);
    AtSlice(c, off + 1, o);
    AtOne(c, o, right);
    AtSplit(c, off + 1, c[off + 1..o], [right]);
    AtSplit(c, off, [left], c[off + 1..o] + [right]);
  }

  /** One round of the array loop of an accepted array. */
  lemma ElementsOk(c: Text, off: nat, depth: nat)
    requires Terminated(c) && off < |c| && ParseElements(c, off, depth).Ok?
    ensures ParseValue(c, off, depth).Ok?
    ensures var n := ParseValue(c, off, depth).next;
      && off < n < |c|
      && var m := Skip(c, n);
      c[m] == RBRACKET || (c[m] == COMMA && m + 1 < |c| && ParseElements(c, Skip(c, m + 1), depth).Ok?)
  {
    hide ParseValue, Skip;
  }

  lemma MembersOk(c: Text, off: nat, depth: nat)
    requires Terminated(c) && off < |c| && ParseMembers(c, off, depth).Ok?
    ensures ParseMember(c, off, depth).Ok?
    ensures var n := ParseMember(c, off, depth).next;
      && off < n < |c|
      && var m := Skip(c, n);
      c[m] == RBRACE || (c[m] == COMMA && m + 1 < |c| && ParseMembers(c, Skip(c, m + 1), depth).Ok?)
  {
    hide ParseMember, Skip;
  }

  lemma ElemsRead(c: Text, from: nat, depth: nat) returns (es: seq<Elem>)
    requires Terminated(c) && from < |c| && depth <= NESTING_LIMIT && ParseElements(c, Skip(c, from), depth).Ok?
    ensures es != [] && (forall i :: 0 <= i < |es| ==> ValidElem(es[i], NESTING_LIMIT - depth))
    ensures At(c, from, ElemsText(es))
    ensures ParseElements(c, Skip(c, from), depth) == Ok(ElemsMeaning(es), from + |ElemsText(es)|)
    decreases |c| - from, 3
  {
    hide Skip, ParseValue, ParseElements, At, Valid, Meaning, ValueText, Gap;
    var o := Skip(c, from);
    ElementsOk(c, o, depth);
    var k := ValueRead(c, o, depth);
    var n := ParseValue(c, o, depth).next;
    ElementsStep(c, o, depth, Meaning(k), n);
    var m := Skip(c, n);
    GapRun(c, from);
    GapRun(c, n);
    AtSlice(c, from, o);
    AtSlice(c, n, m);
    var e := Elem(c[from..o], k, c[n..m]);
    var rest: Text;
    if c[m] == RBRACKET {
      AtOne(c, m, RBRACKET);
      es, rest := [e], [RBRACKET];
      assert es[1..] == [] && ElemsMeaning(es) == [Meaning(k)];
    } else {
      AtOne(c, m, COMMA);
      var more := ElemsRead(c, m + 1, depth);
      es, rest := [e] + more, [COMMA] + ElemsText(more);
      AtSplit(c, m, [COMMA], ElemsText(more));
      assert es[1..] == more;
    }
    AtSplit(c, n, e.after, rest);
    AtSplit(c, o, ValueText(k), e.after + rest);
    AtSplit(c, from, e.before, ValueText(k) + (e.after + rest));
  }

  lemma ObjectRead(c: Text, off: nat, depth: nat) returns (k: Cst)
    requires Terminated(c) && off + 1 < |c| && c[off] == LBRACE && depth <= NESTING_LIMIT
    requires ParseObject(c, off, depth).Ok?
    ensures Valid(k, NESTING_LIMIT - depth) && At(c, off, ValueText(k))
    ensures ParseObject(c, off, depth) == Ok(Meaning(k), off + |ValueText(k)|)
    decreases |c| - off, 0
  {
    hide Skip, ParseMembers, At, EntriesText, Gap, ValidEntry;
    var o := Skip(c, off + 1);
    AtOne(c, off, LBRACE);
    NoGap();
    if c[o] == RBRACE {
      var open := c[off + 1..o];
      k := CObj(open, []);
      EmptyRead(c, off, LBRACE, o, RBRACE);
    } else {
      var ms := EntriesRead(c, off + 1, depth + 1);
      k := CObj([], ms);
      AtSplit(c, off, [LBRACE], EntriesText(ms));
    }
  }

  /** An entry from behind the brace or comma to the end of its value. */
  lemma EntryRead(c: Text, from: nat, depth: nat) returns (e: Entry)
    requires Terminated(c) && from < |c| && depth <= NESTING_LIMIT && ParseMember(c, Skip(c, from), depth).Ok?
    ensures ValidEntry(e, NESTING_LIMIT - depth) && e.after == [] && At(c, from, EntryText(e))
    ensures ParseMember(c, Skip(c, from), depth) ==
      Ok(Member(StringMeaning(e.key), Meaning(e.v)), from + |EntryText(e)|)
    decreases |c| - from, 2
  {
    hide Skip, ParseValue, ParseString, At, Valid, Meaning, ValueText, QuotedText, ValidPieces, StringMeaning;
    var o := Skip(c, from);
    var key := StringRead(c, o);
    var n := ParseString(c, o).next;
    var m := Skip(c, n);
    var v := Skip(c, m + 1);
    var k := ValueRead(c, v, depth);
    GapRun(c, from);
    GapRun(c, n);
    GapRun(c, m + 1);
    AtSlice(c, from, o);
    AtSlice(c, n, m);
    AtOne(c, m, COLON);
    AtSlice(c, m + 1, v);
    e := Entry(c[from..o], key, c[n..m], c[m + 1..v], k, []);
    var q := QuotedText(key);
    AtSplit(c, m + 1, e.mid2, ValueText(k));
    AtSplit(c, m, [COLON], e.mid2 + ValueText(k));
    AtSplit(c, n, e.mid1, [COLON] + (e.mid2 + ValueText(k)));
    AtSplit(c, o, q, e.mid1 + ([COLON] + (e.mid2 + ValueText(k))));
    AtSplit(c, from, e.before, q + (e.mid1 + ([COLON] + (e.mid2 + ValueText(k)))));
  }

  lemma EntriesRead(c: Text, from: nat, depth: nat) returns (ms: seq<Entry>)
    requires Terminated(c) && from < |c| && depth <= NESTING_LIMIT && ParseMembers(c, Skip(c, from), depth).Ok?
    ensures ms != [] && (forall i :: 0 <= i < |ms| ==> ValidEntry(ms[i], NESTING_LIMIT - depth))
    ensures At(c, from, EntriesText(ms))
    ensures ParseMembers(c, Skip(c, from), depth) == Ok(EntriesMeaning(ms), from + |EntriesText(ms)|)
    decreases |c| - from, 3
  {
    hide Skip, ParseMember, ParseMembers, At, ValidEntry, Meaning, EntryText, StringMeaning, Gap;
    MembersOk(c, Skip(c, from), depth);
    var e := EntryRead(c, from, depth);
    var n := ParseMember(c, Skip(c, from), depth).next;
    MembersStep(c, Skip(c, from), depth, Member(StringMeaning(e.key), Meaning(e.v)), n);
    var m := Skip(c, n);
    GapRun(c, n);
    AtSlice(c, n, m);
    var entry := e.(after := c[n..m]);
    SameEntry(e, c[n..m], NESTING_LIMIT - depth);
    var rest: Text;
    if c[m] == RBRACE {
      AtOne(c, m, RBRACE);
      ms, rest := [entry], [RBRACE];
      assert ms[1..] == [] && EntriesMeaning(ms) == [Member(StringMeaning(e.key), Meaning(e.v))];
    } else {
      AtOne(c, m, COMMA);
      var more := EntriesRead(c, m + 1, depth);
      ms, rest := [entry] + more, [COMMA] + EntriesText(more);
      AtSplit(c, m, [COMMA], EntriesText(more));
      assert ms[1..] == more;
    }
    AtSplit(c, n, entry.after, rest);
    AtSplit(c, from, EntryText(entry), entry.after + rest);
  }

  lemma {:induction false} SameEntry(e: Entry, after: Text, d: nat)
    requires ValidEntry(e, d) && Gap(after)
    ensures EntryText(e.(after := after)) == EntryText(e) && ValidEntry(e.(after := after), d)
  {
  }

  lemma NoGap()
    ensures Gap([])
  {
  }

  // ---- Texts.

  /**
   * Soundness: an accepted buffer is a mark, blanks, a value of the grammar nested at
   * most 1000 deep, and, if the end was required, blanks up to the last byte; the result
   * is the meaning of the value.
   */
  lemma TextRead(c: Text, requireEnd: bool) returns (mark: Text, before: Text, k: Cst, after: Text)
    requires Terminated(c) && ParseText(c, requireEnd).Ok?
    ensures (mark == [] || mark == BOM) && Gap(before) && Gap(after) && Valid(k, NESTING_LIMIT)
    ensures At(c, 0, mark + (before + (ValueText(k) + after)))
    ensures ParseText(c, requireEnd) == Ok(Meaning(k), |mark| + |before| + |ValueText(k)| + |after|)
    ensures if requireEnd then ParseText(c, requireEnd).next == |c| - 1 else after == []
  {
    hide Skip, ParseValue, SkipBom, At, Valid, Meaning, ValueText, Gap;
    var b := SkipBom(c);
    var o := Skip(c, b);
    k := ValueRead(c, o, 0);
    var n := ParseValue(c, o, 0).next;
    var m := if requireEnd then Skip(c, n) else n;
    MarkRead(c);
    mark, before, after := c[..b], c[b..o], c[n..m];
    GapRun(c, b);
    GapRun(c, n);
    NoGap();
    AtSlice(c, 0, b);
    AtSlice(c, b, o);
    AtSlice(c, n, m);
    assert mark == c[0..b];
    AtSplit(c, o, ValueText(k), after);
    AtSplit(c, b, before, ValueText(k) + after);
    AtSplit(c, 0, mark, before + (ValueText(k) + after));
    if requireEnd { SkipsToEnd(c, n); }
  }

  lemma {:induction false} SkipsToEnd(c: Text, i: nat)
    requires i < |c| && c[Skip(c, i)] <= SPACE
    ensures Skip(c, i) == |c| - 1
    decreases |c| - i
  {
    if c[i] <= SPACE && i < |c| - 1 { SkipsToEnd(c, i + 1); }
  }

  lemma MarkRead(c: Text)
    requires c != []
    ensures c[..SkipBom(c)] == [] || c[..SkipBom(c)] == BOM
  {
  }

  /** A value of the grammar between blanks, with or without a byte order mark, and a NUL. */
  predicate Framed(c: Text, mark: Text, before: Text, k: Cst, after: Text) {
    && (mark == [] || mark == BOM) && Gap(before) && Gap(after) && Valid(k, NESTING_LIMIT)
    && c == mark + (before + (ValueText(k) + (after + [NUL])))
  }

  ghost predicate Renders(c: Text, k: Cst) { exists mark, before, after :: Framed(c, mark, before, k, after) }

  /** A whole buffer is accepted exactly when it renders a value, which then is the result. */
  lemma TextAccepted(c: Text)
    requires Terminated(c)
    ensures ParseText(c, true).Ok? <==> exists k :: Renders(c, k)
    ensures forall k | Renders(c, k) :: ParseText(c, true) == Ok(Meaning(k), |c| - 1)
  {
    hide ParseText, Meaning, ValueText, Valid, Gap, At;
    if ParseText(c, true).Ok? {
      var mark, before, k, after := TextRead(c, true);
      TextWhole(c, mark, before, ValueText(k), after);
      assert Framed(c, mark, before, k, after);
      assert Renders(c, k);
    }
    forall k | Renders(c, k) ensures ParseText(c, true) == Ok(Meaning(k), |c| - 1) {
      var mark, before, after :| Framed(c, mark, before, k, after);
      TextComplete(mark == BOM, before, k, after, true);
    }
  }

  lemma TextWhole(c: Text, mark: Text, before: Text, v: Text, after: Text)
    requires Terminated(c) && At(c, 0, mark + (before + (v + after)))
    requires |mark| + |before| + |v| + |after| == |c| - 1
    ensures c == mark + (before + (v + (after + [NUL])))
  {
    assert c == c[..|c| - 1] + [NUL];
    assert mark + (before + (v + after)) + [NUL] == mark + (before + (v + (after + [NUL])));
  }

  /** The grammar is unambiguous: one text has one meaning. */
  lemma {:induction false} Unambiguous(j: Cst, k: Cst)
    requires Valid(j, NESTING_LIMIT) && Valid(k, NESTING_LIMIT) && ValueText(j) == ValueText(k)
    ensures Meaning(j) == Meaning(k)
  {
    hide *;
    NoGap();
    TextComplete(false, [], j, [], true);
    TextComplete(false, [], k, [], true);
  }
}
