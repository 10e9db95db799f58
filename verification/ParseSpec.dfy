/**
 * What the recursive-descent parser computes, as functions on the buffer's bytes.
 * `c` is the whole buffer; it ends in NUL, which is how both callers build it.
 */
module ParseSpec {
  import opened Bytes
  import opened Unicode
  import opened Numbers
  import opened Json
  import opened Options

  datatype Parsed<+T> = Fail | Ok(value: T, next: nat)

  predicate Terminated(c: Text) { c != [] && c[|c| - 1] == NUL }

  /** Past bytes up to 32, but never past the last byte. */
  function Skip(c: Text, i: nat): (j: nat)
    requires i < |c|
    ensures i <= j < |c|
    decreases |c| - i
  {
    if c[i] > SPACE || i == |c| - 1 then i else Skip(c, i + 1)
  }

  /** Where the first pass over a string literal finds the closing quote. */
  function ScanEnd(c: Text, i: nat): (r: Option<nat>)
    ensures r.Some? ==> i <= r.value < |c| && c[r.value] == QUOTE
    decreases |c| - i
  {
    if i >= |c| then None
    else if c[i] == QUOTE then Some(i)
    else if c[i] == BACKSLASH then (if i + 1 >= |c| then None else ScanEnd(c, i + 2))
    else ScanEnd(c, i + 1)
  }

  /** One round of the second pass: bytes consumed and bytes written. */
  datatype Unit = Bad | Unit(length: nat, bytes: Text)

  function EscapeUnit(c: Text, i: nat, end: nat): (u: Unit)
    requires i <= end < |c|
    ensures u.Unit? ==> 0 < u.length && i + u.length <= end && 1 <= |u.bytes| <= 4
  {
    if end - i < 6 then Bad else
      var w1 := Hex4(c[i + 2..i + 6]);
      if IsLow(w1) then Bad
      else if IsHigh(w1) then
        if end - (i + 6) < 6 || c[i + 6] != BACKSLASH || c[i + 7] != LOWER_U then Bad else
          var w2 := Hex4(c[i + 8..i + 12]);
          if !IsLow(w2) then Bad else Unit(12, Utf8(PairValue(w1, w2)))
      else Unit(6, Utf8(w1))
  }

  function NextUnit(c: Text, i: nat, end: nat): (u: Unit)
    requires i < end < |c|
    ensures u.Unit? ==> 0 < u.length && i + u.length <= end + 1 && 1 <= |u.bytes| <= 4
  {
    if c[i] != BACKSLASH then Unit(1, [c[i]]) else
      var e := c[i + 1];
      if e == LOWER_B then Unit(2, [BS])
      else if e == LOWER_F then Unit(2, [FF])
      else if e == LOWER_N then Unit(2, [LF])
      else if e == LOWER_R then Unit(2, [CR])
      else if e == LOWER_T then Unit(2, [TAB])
      else if e == QUOTE || e == BACKSLASH || e == SLASH then Unit(2, [e])
      else if e == LOWER_U then EscapeUnit(c, i, end)
      else Bad
  }

  function Decode(c: Text, i: nat, end: nat): (r: Option<Text>)
    requires end < |c|
    decreases end - i
  {
    if i >= end then Some([]) else
      match NextUnit(c, i, end)
      case Bad => None
      case Unit(n, bs) =>
        match Decode(c, i + n, end)
        case None => None
        case Some(rest) => Some(bs + rest)
  }

  /** The value of a string literal is what a C reader sees of the decoded bytes. */
  function ParseString(c: Text, off: nat): (r: Parsed<Text>)
    requires off < |c|
    ensures r.Ok? ==> off < r.next <= |c| && c[r.next - 1] == QUOTE && NulFree(r.value)
  {
    if c[off] != QUOTE then Fail else
      match ScanEnd(c, off + 1)
      case None => Fail
      case Some(end) =>
        match Decode(c, off + 1, end)
        case None => Fail
        case Some(s) => Ok(CString(s), end + 1)
  }

  /** End of the run parse_number copies. */
  function NumberEnd(c: Text, off: nat, i: nat): (e: nat)
    requires i <= |c|
    ensures i <= e <= |c|
    ensures forall k :: i <= k < e ==> IsNumberByte(c[k])
    ensures e < |c| && e < off + NUMBER_MAX ==> !IsNumberByte(c[e])
    decreases |c| - i
  {
    if i < |c| && i < off + NUMBER_MAX && IsNumberByte(c[i]) then NumberEnd(c, off, i + 1) else i
  }

  function ParseNumber(c: Text, off: nat): (r: Parsed<Tree>)
    requires off < |c|
    ensures r.Ok? ==> off < r.next <= |c| && IsNumberByte(c[r.next - 1]) && r.value.Num?
  {
    var end := NumberEnd(c, off, off);
    var v := Strtod(c[off..end]);
    if v.length == 0 then Fail else Ok(Num(v.value), off + v.length)
  }

  predicate StartsNumber(b: byte) { b == MINUS || IsDigit(b) }

  function ParseValue(c: Text, off: nat, depth: nat): (r: Parsed<Tree>)
    requires Terminated(c) && off < |c|
    ensures r.Ok? ==> off < r.next < |c|
    decreases |c| - off, 1
  {
    if At(c, off, NULL_WORD) then assert c[off..off + 4][3] == c[off + 3]; Ok(Null, off + 4)
    else if At(c, off, FALSE_WORD) then assert c[off..off + 5][4] == c[off + 4]; Ok(Bool(false), off + 5)
    else if At(c, off, TRUE_WORD) then assert c[off..off + 4][3] == c[off + 3]; Ok(Bool(true), off + 4)
    else if c[off] == QUOTE then
      match ParseString(c, off)
      case Fail => Fail
      case Ok(s, n) => Ok(Str(s), n)
    else if StartsNumber(c[off]) then ParseNumber(c, off)
    else if c[off] == LBRACKET then ParseArray(c, off, depth)
    else if c[off] == LBRACE then ParseObject(c, off, depth)
    else Fail
  }

  function ParseArray(c: Text, off: nat, depth: nat): (r: Parsed<Tree>)
    requires Terminated(c) && off < |c| - 1
    ensures r.Ok? ==> off < r.next < |c|
    decreases |c| - off, 0
  {
    if depth >= NESTING_LIMIT then Fail else
      var o := Skip(c, off + 1);
      if c[o] == RBRACKET then Ok(Arr([]), o + 1) else
        match ParseElements(c, o, depth + 1)
        case Fail => Fail
        case Ok(items, n) => Ok(Arr(items), n)
  }

  function ParseObject(c: Text, off: nat, depth: nat): (r: Parsed<Tree>)
    requires Terminated(c) && off < |c| - 1
    ensures r.Ok? ==> off < r.next < |c|
    decreases |c| - off, 0
  {
    if depth >= NESTING_LIMIT then Fail else
      var o := Skip(c, off + 1);
      if c[o] == RBRACE then Ok(Obj([]), o + 1) else
        match ParseMembers(c, o, depth + 1)
        case Fail => Fail
        case Ok(ms, n) => Ok(Obj(ms), n)
  }

  /** The rest of an array from the first byte of an element. */
  function ParseElements(c: Text, off: nat, depth: nat): (r: Parsed<seq<Tree>>)
    requires Terminated(c) && off < |c|
    ensures r.Ok? ==> off < r.next < |c|
    decreases |c| - off, 2
  {
    match ParseValue(c, off, depth)
    case Fail => Fail
    case Ok(v, n) =>
      var m := Skip(c, n);
      if c[m] == RBRACKET then Ok([v], m + 1)
      else if c[m] != COMMA then Fail
      else
        match ParseElements(c, Skip(c, m + 1), depth)
        case Fail => Fail
        case Ok(vs, e) => Ok([v] + vs, e)
  }

  /** One `"key" : value`. */
  function ParseMember(c: Text, off: nat, depth: nat): (r: Parsed<Member>)
    requires Terminated(c) && off < |c|
    ensures r.Ok? ==> off < r.next < |c|
    decreases |c| - off, 2
  {
    match ParseString(c, off)
    case Fail => Fail
    case Ok(key, n) =>
      var m := Skip(c, n);
      if c[m] != COLON then Fail else
        match ParseValue(c, Skip(c, m + 1), depth)
        case Fail => Fail
        case Ok(v, e) => Ok(Member(key, v), e)
  }

  /** The rest of an object from the first byte of a key. */
  function ParseMembers(c: Text, off: nat, depth: nat): (r: Parsed<seq<Member>>)
    requires Terminated(c) && off < |c|
    ensures r.Ok? ==> off < r.next < |c|
    decreases |c| - off, 3
  {
    match ParseMember(c, off, depth)
    case Fail => Fail
    case Ok(v, n) =>
      var m := Skip(c, n);
      if c[m] == RBRACE then Ok([v], m + 1)
      else if c[m] != COMMA then Fail
      else
        match ParseMembers(c, Skip(c, m + 1), depth)
        case Fail => Fail
        case Ok(vs, e) => Ok([v] + vs, e)
  }

  const BOM: Text := [0xEF, 0xBB, 0xBF]

  function SkipBom(c: Text): (o: nat)
    requires c != []
    ensures o < |c|
  {
    if 4 < |c| && At(c, 0, BOM) then 3 else 0
  }

  /** cJSON_ParseWithLengthOpts: one value, and on demand nothing but blanks after it. */
  function ParseText(c: Text, requireEnd: bool): (r: Parsed<Tree>)
    requires Terminated(c)
    ensures r.Ok? ==> r.next < |c|
  {
    match ParseValue(c, Skip(c, SkipBom(c)), 0)
    case Fail => Fail
    case Ok(t, n) =>
      if !requireEnd then Ok(t, n)
      else
        var m := Skip(c, n);
        if c[m] == NUL then Ok(t, m) else Fail
  }

  /** Every string and key that comes out is NUL-free and nesting stays within what `depth` leaves. */
  predicate Sound(t: Tree, d: nat) {
    match t
    case Str(s) => NulFree(s)
    case Arr(items) => d > 0 && forall i :: 0 <= i < |items| ==> Sound(items[i], d - 1)
    case Obj(ms) => d > 0 && forall i :: 0 <= i < |ms| ==> SoundMember(ms[i], d - 1)
    case _ => true
  }

  predicate SoundMember(m: Member, d: nat) { NulFree(m.key) && Sound(m.value, d) }
  predicate AllSound(ts: seq<Tree>, d: nat) { forall i :: 0 <= i < |ts| ==> Sound(ts[i], d) }
  predicate AllSoundMembers(ms: seq<Member>, d: nat) { forall i :: 0 <= i < |ms| ==> SoundMember(ms[i], d) }

  lemma {:induction false} SoundNests(t: Tree, d: nat)
    requires Sound(t, d)
    ensures NestsWithin(t, d)
  {
    match t
    case Arr(items) => forall i | 0 <= i < |items| ensures NestsWithin(items[i], d - 1) { SoundNests(items[i], d - 1); }
    case Obj(ms) =>
      forall i | 0 <= i < |ms| ensures NestsWithin(ms[i].value, d - 1) {
        assert SoundMember(ms[i], d - 1);
        SoundNests(ms[i].value, d - 1);
      }
    case _ =>
  }

  /** Whatever the bytes, a parsed value nests at most NESTING_LIMIT containers. */
  lemma {:induction false} ValueSound(c: Text, off: nat, depth: nat)
    requires Terminated(c) && off < |c| && depth <= NESTING_LIMIT
    ensures var r := ParseValue(c, off, depth); r.Ok? ==> Sound(r.value, NESTING_LIMIT - depth)
    decreases |c| - off, 1
  {
    hide At, Skip, ParseElements, ParseMembers, ParseString, ParseNumber;
    if depth < NESTING_LIMIT && off + 1 < |c| {
      if c[off] == LBRACKET {
        ElementsSound(c, Skip(c, off + 1), depth + 1);
      } else if c[off] == LBRACE {
        MembersSound(c, Skip(c, off + 1), depth + 1);
      }
    }
  }

  lemma {:induction false} ElementsSound(c: Text, off: nat, depth: nat)
    requires Terminated(c) && off < |c| && depth <= NESTING_LIMIT
    ensures var r := ParseElements(c, off, depth); r.Ok? ==> AllSound(r.value, NESTING_LIMIT - depth)
    decreases |c| - off, 2
  {
    hide Skip, ParseValue, Sound;
    ValueSound(c, off, depth);
    match ParseValue(c, off, depth)
    case Fail =>
    case Ok(v, n) =>
      var m := Skip(c, n);
      if c[m] == COMMA { ElementsSound(c, Skip(c, m + 1), depth); }
  }

  lemma {:induction false} MemberSound(c: Text, off: nat, depth: nat)
    requires Terminated(c) && off < |c| && depth <= NESTING_LIMIT
    ensures var r := ParseMember(c, off, depth); r.Ok? ==> SoundMember(r.value, NESTING_LIMIT - depth)
    decreases |c| - off, 2
  {
    hide Skip, ParseValue, ParseString, Sound;
    match ParseString(c, off)
    case Fail =>
    case Ok(key, n) =>
      var m := Skip(c, n);
      if c[m] == COLON { ValueSound(c, Skip(c, m + 1), depth); }
  }

  lemma {:induction false} MembersSound(c: Text, off: nat, depth: nat)
    requires Terminated(c) && off < |c| && depth <= NESTING_LIMIT
    ensures var r := ParseMembers(c, off, depth); r.Ok? ==> AllSoundMembers(r.value, NESTING_LIMIT - depth)
    decreases |c| - off, 3
  {
    hide Skip, ParseMember, SoundMember;
    MemberSound(c, off, depth);
    match ParseMember(c, off, depth)
    case Fail =>
    case Ok(v, n) =>
      var m := Skip(c, n);
      if c[m] == COMMA { MembersSound(c, Skip(c, m + 1), depth); }
  }
}
