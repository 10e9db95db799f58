/** Bytes, C strings and the ASCII codes the JSON code tests for. */
module Bytes {
  type byte = b: int | 0 <= b < 256
  type Text = seq<byte>

  const NUL: byte := 0
  const BS: byte := 8
  const TAB: byte := 9
  const LF: byte := 10
  const FF: byte := 12
  const CR: byte := 13
  const SPACE: byte := 32
  const QUOTE: byte := 34
  const STAR: byte := 42
  const PLUS: byte := 43
  const COMMA: byte := 44
  const MINUS: byte := 45
  const DOT: byte := 46
  const SLASH: byte := 47
  const ZERO: byte := 48
  const NINE: byte := 57
  const COLON: byte := 58
  const UPPER_A: byte := 65
  const UPPER_E: byte := 69
  const UPPER_F: byte := 70
  const LBRACKET: byte := 91
  const BACKSLASH: byte := 92
  const RBRACKET: byte := 93
  const LOWER_A: byte := 97
  const LOWER_B: byte := 98
  const LOWER_E: byte := 101
  const LOWER_F: byte := 102
  const LOWER_N: byte := 110
  const LOWER_R: byte := 114
  const LOWER_T: byte := 116
  const LOWER_U: byte := 117
  const LBRACE: byte := 123
  const RBRACE: byte := 125

  const NULL_WORD: Text := [110, 117, 108, 108]
  const TRUE_WORD: Text := [116, 114, 117, 101]
  const FALSE_WORD: Text := [102, 97, 108, 115, 101]

  predicate IsDigit(b: byte) { ZERO <= b <= NINE }

  predicate NulFree(s: Text) { forall i :: 0 <= i < |s| ==> s[i] != NUL }

  /** What a C reader sees of a block: the bytes before its first NUL. */
  function CString(s: Text): (r: Text)
    ensures |r| <= |s| && r == s[..|r|] && NulFree(r)
    ensures |r| < |s| ==> s[|r|] == NUL
  {
    if s == [] || s[0] == NUL then [] else
      var rest := CString(s[1..]);
      assert s[..|rest| + 1] == [s[0]] + s[1..][..|rest|];
      [s[0]] + rest
  }

  lemma {:induction false} CStringNulFree(s: Text)
    requires NulFree(s)
    ensures CString(s) == s
  {
  }

  lemma {:induction false} CStringOfTerminated(s: Text, rest: Text)
    requires NulFree(s)
    ensures CString(s + [NUL] + rest) == s
  {
    var t := s + [NUL] + rest;
    if s != [] {
      CStringOfTerminated(s[1..], rest);
      assert t[1..] == s[1..] + [NUL] + rest;
    }
  }

  /** The bytes of a text of characters below 128. */
  function Ascii(s: string): (t: Text)
    requires forall i :: 0 <= i < |s| ==> s[i] as int < 128
    ensures |t| == |s|
  {
    seq(|s|, i requires 0 <= i < |s| => s[i] as int)
  }

  /** `t` stands in `c` at `off`. */
  predicate At(c: Text, off: nat, t: Text) {
    off + |t| <= |c| && c[off..off + |t|] == t
  }

  lemma AtSplit(c: Text, off: nat, a: Text, b: Text)
    ensures At(c, off, a + b) <==> At(c, off, a) && At(c, off + |a|, b)
  {
    if off + |a| + |b| <= |c| {
      var w := c[off..off + |a| + |b|];
      assert w[..|a|] == c[off..off + |a|];
      assert w[|a|..] == c[off + |a|..off + |a| + |b|];
      assert (a + b)[..|a|] == a && (a + b)[|a|..] == b;
      assert w == w[..|a|] + w[|a|..];
    }
  }

  lemma AtByte(c: Text, off: nat, t: Text, i: nat)
    requires At(c, off, t) && i < |t|
    ensures c[off + i] == t[i]
  {
    assert c[off..off + |t|][i] == c[off + i];
  }
}
