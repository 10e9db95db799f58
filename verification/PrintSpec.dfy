/** The text an unbounded-output printer would produce. */
module PrintSpec {
  import opened Bytes
  import opened Numbers
  import opened Json

  function HexLower(d: nat): (b: byte)
    requires d < 16
  {
    if d < 10 then ZERO + d else LOWER_A + (d - 10)
  }

  /** One input byte in a quoted string. */
  function Escaped(b: byte): (s: Text)
    ensures 1 <= |s| && NulFree(s)
    ensures b > NUL ==> |s| == 1 + Extra(b)
  {
    if b == QUOTE || b == BACKSLASH then [BACKSLASH, b]
    else if b == BS then [BACKSLASH, LOWER_B]
    else if b == FF then [BACKSLASH, LOWER_F]
    else if b == LF then [BACKSLASH, LOWER_N]
    else if b == CR then [BACKSLASH, LOWER_R]
    else if b == TAB then [BACKSLASH, LOWER_T]
    else if b < SPACE then [BACKSLASH, LOWER_U, ZERO, ZERO, HexLower(b / 16), HexLower(b % 16)]
    else [b]
  }

  /** Additional characters the counting pass reserves for a byte. */
  function Extra(b: byte): nat {
    if b == QUOTE || b == BACKSLASH || b == BS || b == FF || b == LF || b == CR || b == TAB then 1
    else if b < SPACE then 5 else 0
  }

  function EscapedText(s: Text): (r: Text)
    ensures NulFree(r)
  {
    if s == [] then [] else Escaped(s[0]) + EscapedText(s[1..])
  }

  function Quoted(s: Text): (r: Text)
    ensures NulFree(r) && |r| >= 2
  {
    [QUOTE] + (EscapedText(s) + [QUOTE])
  }

  function Tabs(n: nat): (s: Text)
    ensures |s| == n && forall i :: 0 <= i < n ==> s[i] == TAB
  {
    if n == 0 then [] else [TAB] + Tabs(n - 1)
  }

  /** `s` in formatted output, nothing otherwise. */
  function When(fmt: bool, s: Text): Text { if fmt then s else [] }

  function Print(t: Tree, fmt: bool, depth: nat): (s: Text)
    ensures NulFree(s) && s != []
  {
    match t
    case Null => NULL_WORD
    case Bool(b) => if b then TRUE_WORD else FALSE_WORD
    case Num(v) => Decimal(v.Floor)
    case Str(s) => Quoted(s)
    case Arr(items) => [LBRACKET] + PrintItems(items, fmt, depth + 1)
    case Obj(ms) => [LBRACE] + (When(fmt, [LF]) + PrintMembers(ms, fmt, depth + 1))
  }

  /** What follows the opening bracket, or the comma before `items`. */
  function PrintItems(items: seq<Tree>, fmt: bool, depth: nat): (s: Text)
    ensures NulFree(s) && s != []
  {
    if items == [] then [RBRACKET] else
      Print(items[0], fmt, depth) + (Separator(|items| > 1, fmt) + PrintItems(items[1..], fmt, depth))
  }

  function Separator(more: bool, fmt: bool): (s: Text)
    ensures NulFree(s)
  {
    if !more then [] else [COMMA] + When(fmt, [SPACE])
  }

  function PrintMembers(ms: seq<Member>, fmt: bool, depth: nat): (s: Text)
    requires depth > 0
    ensures NulFree(s) && s != []
  {
    if ms == [] then When(fmt, Tabs(depth - 1)) + [RBRACE] else
      PrintMember(ms[0], fmt, depth) + (EndOfMember(|ms| > 1, fmt) + PrintMembers(ms[1..], fmt, depth))
  }

  function PrintMember(m: Member, fmt: bool, depth: nat): (s: Text)
    requires depth > 0
    ensures NulFree(s) && s != []
  {
    When(fmt, Tabs(depth)) + (Quoted(m.key) + ([COLON] + When(fmt, [TAB]) + Print(m.value, fmt, depth)))
  }

  function EndOfMember(more: bool, fmt: bool): (s: Text)
    ensures NulFree(s)
  {
    (if more then [COMMA] else []) + When(fmt, [LF])
  }
}
