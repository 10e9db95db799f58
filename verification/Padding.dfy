/** NULs behind a text do not change what is parsed from it. */
module Padding {
  import opened Bytes
  import opened Numbers
  import opened Json
  import opened ParseSpec
  import opened Grammar
  import opened Completeness
  import opened Soundness

  /** `c` is a C string with its NUL, and `p` the same with more NULs. */
  predicate Padded(c: Text, p: Text) {
    && Terminated(c) && NulFree(c[..|c| - 1])
    && |c| <= |p| && p[..|c|] == c && forall i :: |c| <= i < |p| ==> p[i] == NUL
  }

  lemma PaddedBytes(c: Text, p: Text)
    requires Padded(c, p)
    ensures Terminated(p) && 0 < |c| <= |p|
    ensures forall i :: 0 <= i < |c| - 1 ==> p[i] == c[i] != NUL
    ensures forall i :: |c| - 1 <= i < |p| ==> p[i] == NUL
    ensures c[|c| - 1] == NUL
  {
    assert forall i :: 0 <= i < |c| - 1 ==> c[i] == c[..|c| - 1][i];
    assert forall i :: 0 <= i < |c| ==> p[i] == p[..|c|][i];
  }

  lemma {:induction false} SkipPadded(c: Text, p: Text, i: nat)
    requires Padded(c, p) && i < |c|
    ensures var j := Skip(c, i); i < |p| && if j < |c| - 1 then Skip(p, i) == j else p[Skip(p, i)] == NUL
    decreases |c| - i
  {
    hide Padded;
    PaddedBytes(c, p);
    if i < |c| - 1 { SkipPadded(c, p, i + 1); }
  }

  lemma {:induction false} NoValue(c: Text, off: nat)
    requires Terminated(c) && off < |c| && c[off] == NUL
    ensures ParseValue(c, off, 0) == Fail
  {
    NotWord(c, off);
  }

  lemma {:induction false} RunPadded(c: Text, p: Text, off: nat, i: nat)
    requires Padded(c, p) && i < |c|
    ensures i <= |p| && NumberEnd(p, off, i) == NumberEnd(c, off, i) < |c|
    decreases |c| - i
  {
    hide Padded;
    PaddedBytes(c, p);
    if i < |c| - 1 { RunPadded(c, p, off, i + 1); }
  }

  lemma NumberPadded(c: Text, p: Text, off: nat)
    requires Padded(c, p) && off < |c|
    ensures off < |p| && ParseNumber(p, off) == ParseNumber(c, off)
  {
    hide Padded, Strtod, NumberEnd;
    PaddedBytes(c, p);
    RunPadded(c, p, off, off);
    assert p[off..NumberEnd(c, off, off)] == c[off..NumberEnd(c, off, off)];
  }

  /** What stands in front of the padding stands in both. */
  lemma AtPadded(c: Text, p: Text, off: nat, t: Text)
    requires Padded(c, p)
    ensures At(c, off, t) ==> At(p, off, t)
    ensures At(p, off, t) && t != [] && t[|t| - 1] != NUL ==> At(c, off, t) && off + |t| < |c|
  {
    hide Padded;
    PaddedBytes(c, p);
    assert p[..|c|] == c;
    if At(p, off, t) && t != [] && t[|t| - 1] != NUL {
      AtByte(p, off, t, |t| - 1);
      assert p[off..off + |t|] == c[off..off + |t|];
    }
    if At(c, off, t) { assert p[off..off + |t|] == c[off..off + |t|]; }
  }

  /** The text of a value does not end in NUL. */
  lemma {:induction false} LastByte(k: Cst, d: nat)
    requires Valid(k, d) && !k.CNum?
    ensures ValueText(k) != [] && ValueText(k)[|ValueText(k)| - 1] != NUL
  {
    match k
    case CArr(_, es) => if es != [] { LastOfElems(es); }
    case CObj(_, ms) => if ms != [] { LastOfEntries(ms); }
    case _ =>
  }

  lemma {:induction false} LastOfElems(es: seq<Elem>)
    requires es != []
    ensures ElemsText(es)[|ElemsText(es)| - 1] == RBRACKET
    decreases |es|
  {
    hide ValueText;
    if |es| > 1 { LastOfElems(es[1..]); }
  }

  lemma {:induction false} LastOfEntries(ms: seq<Entry>)
    requires ms != []
    ensures EntriesText(ms)[|EntriesText(ms)| - 1] == RBRACE
    decreases |ms|
  {
    hide EntryText;
    if |ms| > 1 { LastOfEntries(ms[1..]); }
  }

  lemma {:induction false} ValuePadded(c: Text, p: Text, off: nat)
    requires Padded(c, p) && off < |c| - 1
    ensures off < |p| && Terminated(p) && ParseValue(p, off, 0) == ParseValue(c, off, 0)
  {
    hide Padded, ParseNumber, At, ValueText, Meaning, Valid;
    PaddedBytes(c, p);
    if StartsNumber(c[off]) {
      NotWord(c, off);
      NotWord(p, off);
      NumberPadded(c, p, off);
    } else {
      hide ParseValue;
      if ParseValue(c, off, 0).Ok? {
        var k := ValueRead(c, off, 0);
        NoNumber(c, off, k);
        LastByte(k, NESTING_LIMIT);
        AtEnd(c, off, ValueText(k));
        AtPadded(c, p, off, ValueText(k));
        ValueComplete(p, off, k, 0);
      } else if ParseValue(p, off, 0).Ok? {
        var k := ValueRead(p, off, 0);
        NoNumber(p, off, k);
        LastByte(k, NESTING_LIMIT);
        AtPadded(c, p, off, ValueText(k));
        ValueComplete(c, off, k, 0);
      }
    }
  }

  lemma {:induction false} NoNumber(c: Text, off: nat, k: Cst)
    requires Valid(k, NESTING_LIMIT) && At(c, off, ValueText(k)) && off < |c| && !StartsNumber(c[off])
    ensures !k.CNum?
  {
    hide At, ValueText, Valid;
    FirstByte(k, NESTING_LIMIT);
    AtByte(c, off, ValueText(k), 0);
  }

  lemma MarkPadded(c: Text, p: Text)
    requires Padded(c, p)
    ensures SkipBom(p) == SkipBom(c) || (|c| == 4 && SkipBom(p) == 3 && SkipBom(c) == 0 && c[0] == 0xEF)
  {
    hide Padded;
    PaddedBytes(c, p);
    AtPadded(c, p, 0, BOM);
    if At(p, 0, BOM) { AtByte(p, 0, BOM, 0); }
  }

  /** A text of one value, and anything behind it. */
  lemma TextPadded(c: Text, p: Text)
    requires Padded(c, p)
    ensures Terminated(p) && ParseText(p, false) == ParseText(c, false)
  {
    hide Padded, ParseValue, Skip, SkipBom;
    PaddedBytes(c, p);
    MarkPadded(c, p);
    var o := SkipBom(c);
    if SkipBom(p) != o {
      MarkOnly(c, p);
    } else {
      SkipPadded(c, p, o);
      if Skip(c, o) < |c| - 1 {
        ValuePadded(c, p, Skip(c, o));
      } else {
        NoValue(c, Skip(c, o));
        NoValue(p, Skip(p, o));
      }
    }
  }

  /** Nothing but a mark: it is skipped in the longer text only, and neither parses. */
  lemma MarkOnly(c: Text, p: Text)
    requires Padded(c, p) && |c| == 4 && SkipBom(p) == 3 && SkipBom(c) == 0 && c[0] == 0xEF
    ensures Terminated(p) && ParseText(p, false) == ParseText(c, false) == Fail
  {
    hide Padded, ParseValue;
    PaddedBytes(c, p);
    SkipPadded(c, p, 3);
    NoValue(p, Skip(p, 3));
    MarkNoValue(c);
  }

  lemma {:induction false} MarkNoValue(c: Text)
    requires Terminated(c) && c[0] == 0xEF
    ensures ParseValue(c, 0, 0) == Fail
  {
    NotWord(c, 0);
  }
}
