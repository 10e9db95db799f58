/** print_string_ptr: the counting pass and the writing pass agree on every byte. */
module StringPrinter {
  import opened Bytes
  import opened Heap
  import opened PrintSpec
  import opened PrintBuffers

  /** What a null pointer or a C string is printed as. */
  ghost function Input(input: array?<byte>): Text
    reads Block(input)
  {
    if input == null then [] else CString(input[..])
  }

  function ExtraText(s: Text): nat { if s == [] then 0 else Extra(s[0]) + ExtraText(s[1..]) }

  /** The counted size is the size of what the writing pass emits. */
  lemma {:induction false} EscapedLength(s: Text)
    requires NulFree(s)
    ensures |EscapedText(s)| == |s| + ExtraText(s)
  {
    if s != [] {
      assert s[0] != NUL;
      EscapedLength(s[1..]);
    }
  }

  lemma {:induction false} PlainText(s: Text)
    requires NulFree(s) && ExtraText(s) == 0
    ensures EscapedText(s) == s
  {
    if s != [] {
      assert s[0] != NUL;
      PlainText(s[1..]);
    }
  }

  lemma {:induction false} StringEnd(b: Text)
    requires |CString(b)| < |b|
    ensures forall i | 0 <= i < |CString(b)| :: b[i] == CString(b)[i] && b[i] != NUL
    ensures b[|CString(b)|] == NUL
  {
    var x := CString(b);
    assert forall i | 0 <= i < |x| :: b[..|x|][i] == b[i];
  }

  /** The first pass: how long the string is and how many more characters its escapes need. */
  method CountEscapes(input: array<byte>, ghost x: Text) returns (n: nat, extra: nat)
    requires x == CString(input[..]) && |x| < input.Length
    ensures n == |x| && extra == ExtraText(x)
  {
    StringEnd(input[..]);
    n, extra := 0, 0;
    while input[n] != NUL
      invariant n <= |x| && extra + ExtraText(x[n..]) == ExtraText(x)
      decreases |x| - n
    {
      var b := input[n];
      if b == QUOTE || b == BACKSLASH || b == BS || b == FF || b == LF || b == CR || b == TAB {
        extra := extra + 1;
      } else if b < SPACE {
        extra := extra + 5;
      }
      assert x[n..][0] == b && x[n..][1..] == x[n + 1..];
      n := n + 1;
    }
  }

  lemma Joins(s: Text, at: nat, e: Text)
    requires at + |e| <= |s| && forall k | 0 <= k < |e| :: s[at + k] == e[k]
    ensures s[..at + |e|] == s[..at] + e
  {
  }

  /** What follows the backslash. sprintf also writes a NUL, which later bytes overwrite. */
  method WriteEscape(b: byte, output: array<byte>, at: nat) returns (at': nat)
    requires b != NUL && |Escaped(b)| > 1 && at + |Escaped(b)| - 1 < output.Length
    modifies output
    ensures at' == at + |Escaped(b)| - 1 && output[..at'] == old(output[..at]) + Escaped(b)[1..]
  {
    at' := at + 1;
    if b == BACKSLASH {
      output[at] := BACKSLASH;
    } else if b == QUOTE {
      output[at] := QUOTE;
    } else if b == BS {
      output[at] := LOWER_B;
    } else if b == FF {
      output[at] := LOWER_F;
    } else if b == LF {
      output[at] := LOWER_N;
    } else if b == CR {
      output[at] := LOWER_R;
    } else if b == TAB {
      output[at] := LOWER_T;
    } else {
      CopyBytes(output, at, [LOWER_U, ZERO, ZERO, HexLower(b / 16), HexLower(b % 16), NUL]);
      at' := at' + 4;
      assert output[..at + 6][..at + 5] == output[..at + 5];
      return;
    }
    Joins(output[..], at, [output[at]]);
  }

  lemma EscapedSplit(b: byte)
    requires b != NUL
    ensures if b > 31 && b != QUOTE && b != BACKSLASH then Escaped(b) == [b]
      else |Escaped(b)| > 1 && Escaped(b) == [BACKSLASH] + Escaped(b)[1..]
  {
    hide HexLower;
  }

  /** One round of the second pass. */
  method WriteEscaped(b: byte, output: array<byte>, at: nat) returns (at': nat)
    requires b != NUL && at + |Escaped(b)| < output.Length
    modifies output
    ensures at' == at + |Escaped(b)| && output[..at'] == old(output[..at]) + Escaped(b)
  {
    hide Escaped;
    EscapedSplit(b);
    if b > 31 && b != QUOTE && b != BACKSLASH {
      output[at] := b;
      at' := at + 1;
      Joins(output[..], at, [b]);
    } else {
      output[at] := BACKSLASH;
      Joins(output[..], at, [BACKSLASH]);
      at' := WriteEscape(b, output, at + 1);
    }
  }

  /** The second pass, from behind the opening quote. */
  method WriteAllEscaped(input: array<byte>, output: array<byte>, at: nat, ghost x: Text)
    requires x == CString(input[..]) && |x| < input.Length && input != output
    requires at + |EscapedText(x)| < output.Length
    modifies output
    ensures output[..at + |EscapedText(x)|] == old(output[..at]) + EscapedText(x)
  {
    hide Escaped, CString;
    StringEnd(input[..]);
    ghost var w := output[..at];
    ghost var all := w + EscapedText(x);
    var n, to: nat := 0, at;
    assert x[0..] == x;
    while input[n] != NUL
      invariant n <= |x| && to <= output.Length
      invariant output[..to] + EscapedText(x[n..]) == all
      decreases |x| - n
    {
      ghost var before, e, rest := output[..to], Escaped(input[n]), EscapedText(x[n + 1..]);
      assert x[n..][0] == input[n] && x[n..][1..] == x[n + 1..];
      assert EscapedText(x[n..]) == e + rest;
      assert |before + (e + rest)| == |all|;
      to := WriteEscaped(input[n], output, to);
      assert before + (e + rest) == (before + e) + rest;
      n := n + 1;
    }
    assert x[n..] == [] && EscapedText([]) == [];
    assert output[..to] + [] == output[..to];
  }

  /** Everything print_string_ptr stores. */
  method WriteQuoted(input: array<byte>, length: nat, extra: nat, output: array<byte>, at: nat, ghost x: Text)
    requires x == CString(input[..]) && |x| < input.Length && input != output
    requires length == |EscapedText(x)| && extra == ExtraText(x)
    requires at + |Quoted(x)| < output.Length
    modifies output
    ensures output[..at + |Quoted(x)|] == old(output[..at]) + Quoted(x) && output[at + |Quoted(x)|] == NUL
  {
    hide EscapedText, ExtraText, CString;
    ghost var w := output[..at];
    output[at] := QUOTE;
    Joins(output[..], at, [QUOTE]);
    if extra == 0 {
      PlainText(x);
      CopyBytes(output, at + 1, input[..length]);
    } else {
      WriteAllEscaped(input, output, at + 1, x);
    }
    output[at + length + 1] := QUOTE;
    output[at + length + 2] := NUL;
    assert output[..at + 1 + length] == (w + [QUOTE]) + EscapedText(x);
    assert (w + [QUOTE]) + EscapedText(x) + [QUOTE] == w + Quoted(x);
  }

  method PrintString(input: array?<byte>, p: PrintBuffer) returns (ok: bool)
    requires p.Usable()
    requires input != null ==> input != p.buffer && input in p.others && |CString(input[..])| < input.Length
    modifies p, p.buffer, p.mem
    ensures p.Accounted() && p.Kept() && p.offset == old(p.offset) && p.depth == old(p.depth)
    ensures var text := Quoted(old(Input(input)));
      && (ok ==> p.Usable() && p.Shows(old(p.Written()) + text) && old(p.offset) + |text| + 2 <= p.Limit())
      && (!ok ==> old(p.offset) + |text| + 2 > p.Limit() || p.mem.failures > old(p.mem.failures))
  {
    hide EscapedText, ExtraText, CString;
    if input == null {
      QuotedEmpty();
      ok := p.Leave([QUOTE, QUOTE]);
      return;
    }
    ghost var x := CString(input[..]);
    EscapedLength(x);
    var n, extra := CountEscapes(input, x);
    var length := n + extra;
    ok := p.Ensure(length + 3);
    if ok {
      WriteQuoted(input, length, extra, p.buffer, p.offset, x);
    }
  }

  lemma QuotedEmpty()
    ensures Quoted([]) == [QUOTE, QUOTE]
  {
  }
}
