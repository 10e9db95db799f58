/** parse_string: the two passes over a literal, and the memory the first one computes. */
module StringParser {
  import Bits
  import opened Bytes
  import opened Options
  import opened Unicode
  import opened ParseSpec
  import opened Heap

  /** `struct parse_buffer`; the content is constant. */
  class ParseBuffer {
    const content: Text
    var offset: nat
    var depth: nat

    constructor (content: Text)
      ensures this.content == content && offset == 0 && depth == 0
    {
      this.content, offset, depth := content, 0, 0;
    }
  }

  /** Byte `k` is the one the first pass, started at `start`, skips after a backslash. */
  predicate Skipped(c: Text, start: nat, k: nat)
    requires k <= |c|
    decreases k
  {
    k > start && c[k - 1] == BACKSLASH && !Skipped(c, start, k - 1)
  }

  /** Bytes in [start, k) that the first pass keeps in its size, that is all but the backslashes it pairs. */
  function KeptCount(c: Text, start: nat, k: nat): (n: nat)
    requires start <= k <= |c|
    ensures n <= k - start
    decreases k
  {
    if k == start then 0
    else KeptCount(c, start, k - 1) + if c[k - 1] == BACKSLASH && !Skipped(c, start, k - 1) then 0 else 1
  }

  /** Of two neighbouring bytes the first pass keeps at least one. */
  lemma KeptTwo(c: Text, start: nat, i: nat)
    requires start <= i && i + 2 <= |c|
    ensures KeptCount(c, start, i) + 1 <= KeptCount(c, start, i + 2)
  {
    assert KeptCount(c, start, i + 2) ==
      KeptCount(c, start, i + 1) + if c[i + 1] == BACKSLASH && !Skipped(c, start, i + 1) then 0 else 1;
  }

  lemma KeptPlain(c: Text, start: nat, i: nat, n: nat)
    requires start <= i && i + n <= |c| && forall k :: i <= k < i + n ==> c[k] != BACKSLASH
    ensures KeptCount(c, start, i + n) == KeptCount(c, start, i) + n
  {
    if n > 0 { KeptPlain(c, start, i, n - 1); }
  }

  lemma {:induction false} KeptGrows(c: Text, start: nat, i: nat, j: nat)
    requires start <= i <= j <= |c|
    ensures KeptCount(c, start, i) <= KeptCount(c, start, j)
    decreases j
  {
    if i < j { KeptGrows(c, start, i, j - 1); }
  }

  lemma HexNoBackslash(c: Text, i: nat)
    requires i + 4 <= |c| && Hex4(c[i..i + 4]) != 0
    ensures forall k :: i <= k < i + 4 ==> c[k] != BACKSLASH
  {
    forall k | i <= k < i + 4 ensures c[k] != BACKSLASH {
      assert c[k] == c[i..i + 4][k - i];
    }
  }

  /**
   * Whatever way the second pass pairs the bytes it consumes, it writes no more of
   * them than the first pass kept.
   */
  lemma UnitFits(c: Text, start: nat, i: nat, end: nat)
    requires start <= i < end < |c|
    ensures var u := NextUnit(c, i, end);
      u.Unit? ==> KeptCount(c, start, i) + |u.bytes| <= KeptCount(c, start, i + u.length)
  {
    var u := NextUnit(c, i, end);
    if u.Unit? {
      if c[i] != BACKSLASH {
        KeptPlain(c, start, i, 1);
      } else {
        KeptTwo(c, start, i);
        KeptGrows(c, start, i + 2, i + u.length);
        if |u.bytes| > 1 {
          HexNoBackslash(c, i + 2);
          KeptPlain(c, start, i + 2, 4);
          KeptGrows(c, start, i + 6, i + u.length);
        }
      }
    }
  }

  /** The bytes are not the digits of any number. */
  ghost predicate NoNumber(h: Text) { forall w: nat :: !FourDigits(h, w) }

  /** The number of which four bytes are the digits, or 0 if there is none. */
  lemma HexNumber(h: Text)
    requires |h| == 4
    ensures FourDigits(h, Hex4(h)) || (Hex4(h) == 0 && NoNumber(h))
  {
    hide FourDigits, IsHex, HexValue;
    forall w: nat ensures FourDigits(h, w) <==> AllHex(h) && Hex4(h) == w { HexDenotes(h, w); }
  }

  /** parse_hex4 */
  method ParseHex4(c: Text, at: nat) returns (h: nat)
    requires at + 4 <= |c|
    ensures h == Hex4(c[at..at + 4])
    ensures FourDigits(c[at..at + 4], h) || (h == 0 && NoNumber(c[at..at + 4]))
  {
    hide FourDigits, NoNumber;
    HexNumber(c[at..at + 4]);
    h := 0;
    ghost var s := c[at..at + 4];
    var i := 0;
    while i < 4
      invariant 0 <= i <= 4
      invariant forall k :: 0 <= k < i ==> IsHex(s[k])
      invariant h == if i < 4 then 16 * Lead(s, i) else Lead(s, 4)
    {
      var b := c[at + i];
      assert b == s[i];
      if ZERO <= b <= NINE {
        h := h + (b - ZERO);
      } else if UPPER_A <= b <= UPPER_F {
        h := h + 10 + (b - UPPER_A);
      } else if LOWER_A <= b <= LOWER_F {
        h := h + 10 + (b - LOWER_A);
      } else {
        return 0;
      }
      if i < 3 {
        h := h * 16;
      }
      i := i + 1;
    }
    LeadHex(s);
  }

  lemma {:induction false} LeadHex(s: Text)
    requires AllHex(s)
    ensures Lead(s, 4) == Hex4(s)
  {
    assert Lead(s, 1) == HexValue(s[0]);
    assert Lead(s, 2) == 16 * Lead(s, 1) + HexValue(s[1]);
    assert Lead(s, 3) == 16 * Lead(s, 2) + HexValue(s[2]);
  }

  /** The number denoted by the leading digits of `s`. */
  ghost function Lead(s: Text, n: nat): nat
    requires |s| == 4 && n <= 4
  {
    if n == 0 then 0 else 16 * Lead(s, n - 1) + if IsHex(s[n - 1]) then HexValue(s[n - 1]) else 0
  }

  /** An accepted escape writes the UTF-8 form of a scalar value: surrogates never come out. */
  lemma EscapeScalar(c: Text, i: nat, end: nat) returns (cp: nat)
    requires i <= end < |c| && EscapeUnit(c, i, end).Unit?
    ensures IsScalar(cp) && EscapeUnit(c, i, end).bytes == Utf8(cp) && Encodes(EscapeUnit(c, i, end).bytes, cp)
    ensures var w1 := Hex4(c[i + 2..i + 6]);
      if IsHigh(w1) then EscapeUnit(c, i, end).length == 12 && HighOf(cp) == w1 && LowOf(cp) == Hex4(c[i + 8..i + 12])
      else EscapeUnit(c, i, end).length == 6 && cp == w1
  {
    hide Hex4;
    var w1 := Hex4(c[i + 2..i + 6]);
    if IsHigh(w1) {
      var w2 := Hex4(c[i + 8..i + 12]);
      SurrogatePairs(w1, w2);
      cp := PairValue(w1, w2);
    } else {
      cp := w1;
    }
  }

  /** The first half of utf16_literal_to_utf8: the code point of the escape at `i`; length 0 is failure. */
  method ReadCodepoint(c: Text, i: nat, end: nat) returns (length: nat, codepoint: nat)
    requires i < end < |c|
    ensures codepoint <= 0x10_FFFF
    ensures EscapeUnit(c, i, end) == if length == 0 then Bad else Unit(length, Utf8(codepoint))
  {
    hide FourDigits, NoNumber, Hex4, Utf8, Bits.And, Bits.Or, Bits.ShiftLeft;
    length, codepoint := 0, 0;
    if end - i < 6 {
      return;
    }
    var firstCode := ParseHex4(c, i + 2);
    if 0xDC00 <= firstCode <= 0xDFFF {
      return;
    }
    if 0xD800 <= firstCode <= 0xDBFF {
      if end - (i + 6) < 6 {
        return;
      }
      if c[i + 6] != BACKSLASH || c[i + 7] != LOWER_U {
        return;
      }
      var secondCode := ParseHex4(c, i + 8);
      if secondCode < 0xDC00 || secondCode > 0xDFFF {
        return;
      }
      Bits.TwentyBits(firstCode, secondCode);
      length := 12;
      codepoint := 0x1_0000 + Bits.Or(Bits.ShiftLeft(Bits.And(firstCode, 0x3FF), 10), Bits.And(secondCode, 0x3FF));
    } else {
      length, codepoint := 6, firstCode;
    }
  }

  /**
   * utf16_literal_to_utf8: converts the escape at `i`, writes its bytes at `out` and
   * returns the length consumed, 0 for a bad escape.
   */
  method Utf16ToUtf8(c: Text, i: nat, end: nat, output: array<byte>, out: nat) returns (length: nat, out': nat)
    requires i < end < |c|
    requires var u := EscapeUnit(c, i, end); u.Unit? ==> out + |u.bytes| <= output.Length
    modifies output
    ensures length == 0 <==> EscapeUnit(c, i, end).Bad?
    ensures length == 0 ==> output[..] == old(output[..])
    ensures length > 0 ==> var u := EscapeUnit(c, i, end);
      && length == u.length && out' == out + |u.bytes| && output[..out'] == old(output[..])[..out] + u.bytes
  {
    hide EscapeUnit, Utf8;
    var codepoint;
    length, codepoint := ReadCodepoint(c, i, end);
    out' := out;
    if length == 0 {
      return;
    }
    var utf8Length, mark := 0, 0;
    if codepoint < 0x80 {
      utf8Length := 1;
    } else if codepoint < 0x800 {
      utf8Length, mark := 2, 0xC0;
    } else if codepoint < 0x1_0000 {
      utf8Length, mark := 3, 0xE0;
    } else if codepoint <= 0x10_FFFF {
      utf8Length, mark := 4, 0xF0;
    } else {
      // The branch for an invalid code point cannot be reached.
      assert false;
    }
    WriteUtf8(codepoint, utf8Length, mark, output, out);
    out' := out + utf8Length;
  }

  function Mark(n: nat): byte { if n == 2 then 0xC0 else if n == 3 then 0xE0 else if n == 4 then 0xF0 else 0 }

  /** 10xxxxxx with the low six bits. */
  function ContinuationByte(cp: nat): (b: byte)
    ensures b == 0x80 + cp % 64
  {
    Bits.Continuation(cp);
    Bits.And(Bits.Or(cp, 0x80), 0xBF)
  }

  /** What is left of the code point behind the mark of the length, or an ASCII byte. */
  function LeadByte(cp: nat, utf8Length: nat, mark: byte): (b: byte)
    requires mark == Mark(utf8Length) && 1 <= utf8Length <= 4
    requires cp < if utf8Length == 1 then 0x80 else if utf8Length == 2 then 32 else if utf8Length == 3 then 16 else 8
    ensures b == mark + cp
  {
    if utf8Length > 1 then
      Bits.Leading(cp, mark);
      Bits.And(Bits.Or(cp, mark), 0xFF)
    else
      Bits.Ascii(cp);
      Bits.And(cp, 0x7F)
  }

  /** The encoding loop, from the last byte down to the first. */
  method WriteUtf8(codepoint: nat, utf8Length: nat, mark: byte, output: array<byte>, out: nat)
    requires codepoint <= 0x10_FFFF && utf8Length == Utf8Length(codepoint) && mark == Mark(utf8Length)
    requires out + utf8Length <= output.Length
    modifies output
    ensures output[..out + utf8Length] == old(output[..])[..out] + Utf8(codepoint)
  {
    hide *;
    var cp, pos := codepoint, utf8Length - 1;
    ghost var bs, before := Utf8(codepoint), output[..];
    LastGroup(codepoint);
    while pos > 0
      invariant 0 <= pos < utf8Length == |bs|
      invariant cp == Top(codepoint, utf8Length - 1 - pos)
      invariant forall k :: pos < k < utf8Length ==> output[out + k] == bs[k]
      invariant forall k :: 0 <= k < out ==> output[k] == before[k]
    {
      ByteAt(codepoint, pos);
      output[out + pos] := ContinuationByte(cp);
      Bits.SixBitsOff(cp);
      cp := Bits.ShiftRight(cp, 6);
      pos := pos - 1;
    }
    output[out] := LeadByte(cp, utf8Length, mark);
    Pasted(before, output[..], out, bs);
  }

  lemma {:induction false} LastGroup(cp: nat)
    requires cp <= 0x10_FFFF
    ensures var n, bs := Utf8Length(cp), Utf8(cp);
      && |bs| == n && Top(cp, 0) == cp && bs[0] == Mark(n) as int + Top(cp, n - 1)
      && Top(cp, n - 1) < if n == 1 then 0x80 else if n == 2 then 32 else if n == 3 then 16 else 8
  {
    Tops(cp);
  }

  /** The byte at `at`, and what is left for those before it. */
  lemma {:induction false} ByteAt(cp: nat, at: nat)
    requires cp <= 0x10_FFFF && 0 < at < Utf8Length(cp)
    ensures var n, bs := Utf8Length(cp), Utf8(cp);
      |bs| == n && bs[at] == 0x80 + Top(cp, n - 1 - at) % 64 && Top(cp, n - at) == Top(cp, n - 1 - at) / 64
  {
    Tops(cp);
  }

  lemma {:induction false} Tops(cp: nat)
    ensures Top(cp, 1) == cp / 64 && Top(cp, 2) == cp / 64 / 64 && Top(cp, 3) == cp / 64 / 64 / 64
  {
    assert Top(cp, 1) == cp / 64;
    assert Top(cp, 2) == cp / 64 / 64;
  }

  lemma Pasted(before: Text, after: Text, out: nat, bs: Text)
    requires out + |bs| <= |before| == |after|
    requires forall k :: 0 <= k < out ==> after[k] == before[k]
    requires forall k :: 0 <= k < |bs| ==> after[out + k] == bs[k]
    ensures after[..out + |bs|] == before[..out] + bs
  {
  }

  /** `cp` without its lowest `n` groups of six bits. */
  ghost function Top(cp: nat, n: nat): nat { if n == 0 then cp else Top(cp, n - 1) / 64 }

  /** The first pass: finds the closing quote and counts the backslashes it pairs. */
  method ScanString(c: Text, start: nat) returns (found: bool, end: nat, skipped: nat)
    requires start <= |c|
    ensures found <==> ScanEnd(c, start).Some?
    ensures found ==> end == ScanEnd(c, start).value && end - start - skipped == KeptCount(c, start, end)
  {
    end, skipped := start, 0;
    while end < |c| && c[end] != QUOTE
      invariant start <= end <= |c|
      invariant ScanEnd(c, end) == ScanEnd(c, start)
      invariant !Skipped(c, start, end) && end - start - skipped == KeptCount(c, start, end)
    {
      if c[end] == BACKSLASH {
        if end + 1 >= |c| {
          return false, end, skipped;
        }
        skipped := skipped + 1;
        end := end + 1;
        assert Skipped(c, start, end);
      }
      end := end + 1;
    }
    found := end < |c|;
  }

  function Prepend(s: Text, r: Option<Text>): Option<Text> {
    if r.None? then None else Some(s + r.value)
  }

  lemma DecodeRound(c: Text, i: nat, end: nat, s: Text)
    requires i < end < |c|
    ensures var u := NextUnit(c, i, end);
      if u.Bad? then Decode(c, i, end) == None
      else Prepend(s, Decode(c, i, end)) == Prepend(s + u.bytes, Decode(c, i + u.length, end))
  {
    hide NextUnit;
    var u := NextUnit(c, i, end);
    if u.Unit? && Decode(c, i + u.length, end).Some? {
      var rest := Decode(c, i + u.length, end).value;
      assert s + (u.bytes + rest) == (s + u.bytes) + rest;
    }
  }

  /** One round of the second pass; a length of 0 is failure. */
  method DecodeUnit(c: Text, i: nat, end: nat, output: array<byte>, out: nat) returns (length: nat, out': nat)
    requires i < end < |c|
    requires var u := NextUnit(c, i, end); u.Unit? ==> out + |u.bytes| <= output.Length
    modifies output
    ensures length == 0 <==> NextUnit(c, i, end).Bad?
    ensures length > 0 ==> var u := NextUnit(c, i, end);
      && length == u.length && out' == out + |u.bytes| && output[..out'] == old(output[..])[..out] + u.bytes
  {
    hide EscapeUnit;
    length, out' := 2, out + 1;
    if c[i] != BACKSLASH {
      output[out] := c[i];
      length := 1;
    } else {
      var e := c[i + 1];
      if e == LOWER_B {
        output[out] := BS;
      } else if e == LOWER_F {
        output[out] := FF;
      } else if e == LOWER_N {
        output[out] := LF;
      } else if e == LOWER_R {
        output[out] := CR;
      } else if e == LOWER_T {
        output[out] := TAB;
      } else if e == QUOTE || e == BACKSLASH || e == SLASH {
        output[out] := e;
      } else if e == LOWER_U {
        length, out' := Utf16ToUtf8(c, i, end, output, out);
        return;
      } else {
        return 0, out;
      }
    }
    Pasted(old(output[..]), output[..], out, [output[out]]);
  }

  /**
   * The second pass. The block has the size the first pass computed, and no write
   * leaves it, whatever the bytes.
   */
  method DecodeString(c: Text, start: nat, end: nat, output: array<byte>) returns (ok: bool, i: nat, out: nat)
    requires start <= end < |c|
    requires output.Length == KeptCount(c, start, end) + 2
    modifies output
    ensures ok <==> Decode(c, start, end).Some?
    ensures ok ==> out < output.Length && output[out] == NUL && output[..out] == Decode(c, start, end).value
    ensures i <= end + 1
  {
    hide NextUnit, Decode, KeptCount;
    KeptGrows(c, start, end, end + 1);
    KeptLast(c, start, end);
    i, out := start, 0;
    while i < end
      invariant start <= i <= end + 1
      invariant out <= KeptCount(c, start, i) <= KeptCount(c, start, end) + 1
      invariant Prepend(output[..out], Decode(c, i, end)) == Decode(c, start, end)
    {
      UnitFits(c, start, i, end);
      DecodeRound(c, i, end, output[..out]);
      ghost var u := NextUnit(c, i, end);
      if u.Unit? {
        KeptGrows(c, start, i + u.length, end + 1);
      }
      var length;
      length, out := DecodeUnit(c, i, end, output, out);
      if length == 0 {
        return false, i, out;
      }
      i := i + length;
    }
    DecodeDone(c, i, end, output[..out]);
    output[out] := NUL;
    ok := true;
  }

  lemma KeptLast(c: Text, start: nat, end: nat)
    requires start <= end < |c|
    ensures KeptCount(c, start, end + 1) <= KeptCount(c, start, end) + 1
    ensures KeptCount(c, start, start) == 0 && Prepend([], Decode(c, start, end)) == Decode(c, start, end)
  {
    var d := Decode(c, start, end);
    if d.Some? { assert [] + d.value == d.value; }
  }

  lemma {:induction false} DecodeDone(c: Text, i: nat, end: nat, s: Text)
    requires end <= i && end < |c|
    ensures Prepend(s, Decode(c, i, end)) == Some(s)
  {
    assert s + [] == s;
  }

  /**
   * parse_string: on success the item owns a fresh block with the decoded string; on
   * failure nothing is kept, and the literal was bad unless an allocation failed.
   */
  method ParseString(item: Node, buf: ParseBuffer, mem: Memory) returns (ok: bool)
    requires buf.offset < |buf.content|
    modifies buf`offset, mem, item`kind, item`valuestring
    ensures ok ==> var r := ParseSpec.ParseString(buf.content, old(buf.offset));
      && r.Ok? && buf.offset == r.next
      && item.kind == StringKind && IsCString(item.valuestring, r.value) && fresh(item.valuestring)
      && mem.live == old(mem.live) + {item.valuestring} && mem.failures == old(mem.failures)
    ensures !ok ==> mem.live == old(mem.live)
    ensures !ok ==> item.kind == old(item.kind) && item.valuestring == old(item.valuestring)
    ensures !ok ==> ParseSpec.ParseString(buf.content, old(buf.offset)).Fail? || mem.failures > old(mem.failures)
    ensures buf.offset <= |buf.content| && mem.failures >= old(mem.failures)
  {
    hide Decode, ScanEnd, KeptCount;
    var c, off := buf.content, buf.offset;
    ok := false;
    if c[off] != QUOTE {
      buf.offset := off + 1;
      return;
    }
    var found, end, skipped := ScanString(c, off + 1);
    if !found {
      buf.offset := off + 1;
      return;
    }
    var allocationLength := end - off - skipped;
    var output := mem.NewBlock(allocationLength + 1);
    if output == null {
      buf.offset := off + 1;
      return;
    }
    var decoded, i, out := DecodeString(c, off + 1, end, output);
    if !decoded {
      mem.Free(output);
      buf.offset := i;
      return;
    }
    item.kind := StringKind;
    item.valuestring := output;
    buf.offset := end + 1;
    ok := true;
    StringStored(output[..], output[..out]);
  }

  lemma {:induction false} StringStored(block: Text, s: Text)
    requires |s| < |block| && block[..|s|] == s && block[|s|] == NUL
    ensures CString(block) == CString(s)
  {
    if s != [] && s[0] != NUL {
      assert block[0] == s[0] && block[1..][..|s| - 1] == s[1..];
      StringStored(block[1..], s[1..]);
    }
  }

  lemma {:induction false} DecodeFits(c: Text, start: nat, i: nat, end: nat)
    requires start <= end < |c| && start <= i <= end + 1
    ensures Decode(c, i, end).Some? ==>
      KeptCount(c, start, i) + |Decode(c, i, end).value| <= KeptCount(c, start, end) + 1
    decreases end - i
  {
    hide NextUnit, KeptCount;
    KeptLast(c, start, end);
    KeptGrows(c, start, i, end + 1);
    if i < end && NextUnit(c, i, end).Unit? {
      UnitFits(c, start, i, end);
      DecodeFits(c, start, i + NextUnit(c, i, end).length, end);
    }
  }

  /** The size the first pass computes is enough for what the second pass decodes, and its NUL. */
  lemma {:induction false} StringFits(c: Text, start: nat, end: nat)
    requires start <= |c| && ScanEnd(c, start) == Some(end) && Decode(c, start, end).Some?
    ensures |Decode(c, start, end).value| + 1 <= KeptCount(c, start, end) + 2
  {
    KeptLast(c, start, end);
    DecodeFits(c, start, start, end);
  }
}
