/** The recursive printer over the heap. */
module Printer {
  import opened Bytes
  import opened Numbers
  import opened Json
  import opened Heap
  import opened PrintSpec
  import opened PrintBuffers
  import opened StringPrinter

  /**
   * The outcome of printing `text` behind `w`: it stands in the buffer with a NUL, or
   * it and two more bytes exceed what the buffer can hold, or an allocation failed.
   */
  ghost predicate Printed(p: PrintBuffer, ok: bool, w: Text, failures: nat, text: Text)
    reads p, p.buffer, p.mem
  {
    if ok then p.Usable() && p.Shows(w + text) && |w| <= p.offset && |w + text| + 2 <= p.Limit()
    else |w + text| + 2 > p.Limit() || p.mem.failures > failures
  }

  /** The same for steps that also move the offset behind the text. */
  ghost predicate Moved(p: PrintBuffer, ok: bool, w: Text, failures: nat, text: Text)
    reads p, p.buffer, p.mem
  {
    if ok then p.Usable() && p.Written() == w + text
    else |w + text| + 2 > p.Limit() || p.mem.failures > failures
  }

  lemma MovedOn(p: PrintBuffer, w: Text, failures: nat, text: Text)
    requires Moved(p, true, w, failures, text)
    ensures p.Usable() && p.Written() == w + text
  {
  }

  /** A step that does not fit leaves no room for the whole. */
  lemma Stuck(p: PrintBuffer, w: Text, failures: nat, text: Text, w0: Text, failures0: nat,
      whole: Text)
    requires Moved(p, false, w, failures, text) && |w + text| <= |w0 + whole| && failures0 <= failures
    ensures Printed(p, false, w0, failures0, whole)
  {
  }

  /** The last step completes the whole. */
  lemma Ended(p: PrintBuffer, ok: bool, w: Text, failures: nat, text: Text, w0: Text,
      failures0: nat, whole: Text)
    requires Printed(p, ok, w, failures, text) && w + text == w0 + whole && |w0| <= |w| && failures0 <= failures
    ensures Printed(p, ok, w0, failures0, whole)
  {
  }

  /** The closing bracket or brace of a container, in front of which the offset stays. */
  method CloseBracket(p: PrintBuffer, bracket: byte) returns (ok: bool)
    requires p.Usable() && p.depth > 0
    modifies p, p.buffer, p.mem
    ensures p.Accounted() && p.Kept() && (ok ==> p.depth == old(p.depth) - 1)
    ensures Printed(p, ok, old(p.Written()), old(p.mem.failures), [bracket])
  {
    ok := p.Leave([bracket]);
    if ok {
      p.depth := p.depth - 1;
    }
  }

  /** print_number. The 26 bytes of its buffer are enough for a whole number and its NUL. */
  method PrintNumber(item: Node, p: PrintBuffer) returns (ok: bool)
    requires p.Usable() && IsWhole(item.valuedouble)
    modifies p, p.buffer, p.mem
    ensures p.Accounted() && p.Kept() && p.depth == old(p.depth)
    ensures Printed(p, ok, old(p.Written()), old(p.mem.failures), Decimal(old(item.valuedouble).Floor))
  {
    hide Decimal;
    var number := Decimal(item.valuedouble.Floor);
    DecimalLength(item.valuedouble.Floor);
    assert |number| < 26;
    ok := p.Leave(number);
    if ok {
      p.offset := p.offset + |number|;
    }
  }

  method PrintValue(item: Node, p: PrintBuffer, ghost s: Shape, ghost t: Tree) returns (ok: bool)
    requires item == s.node && Holding(s, t) && Plain(t)
    requires p.Usable() && Owned(s) <= p.others
    modifies p, p.buffer, p.mem
    ensures p.Accounted() && p.Kept() && (ok ==> p.depth == old(p.depth))
    ensures Printed(p, ok, old(p.Written()), old(p.mem.failures), Print(t, p.format, old(p.depth)))
    decreases t, 1
  {
    match item.kind
    case NullKind => ok := p.Leave(NULL_WORD);
    case FalseKind => ok := p.Leave(FALSE_WORD);
    case TrueKind => ok := p.Leave(TRUE_WORD);
    case NumberKind => ok := PrintNumber(item, p);
    case StringKind => ok := PrintString(item.valuestring, p);
    case ArrayKind => ok := PrintArray(item, p, s, t);
    case ObjectKind => ok := PrintObject(item, p, s, t);
    case Invalid => ok := false;
  }

  predicate AllPlain(items: seq<Tree>) { forall i | 0 <= i < |items| :: Plain(items[i]) }

  lemma Assembled(w: Text, a: Text, b: Text, c: Text)
    ensures w + (a + (b + c)) == (w + (a + b)) + c
  {
  }

  /** Two steps are one. */
  lemma Chained(p: PrintBuffer, ok: bool, w: Text, failures: nat, a: Text, later: nat, b: Text)
    requires Moved(p, ok, w + a, later, b) && failures <= later
    ensures Moved(p, ok, w, failures, a + b)
  {
    assert w + (a + b) == (w + a) + b;
  }

  lemma Halted(p: PrintBuffer, w: Text, failures: nat, text: Text, whole: Text)
    requires Moved(p, false, w, failures, text) && |text| <= |whole|
    ensures Moved(p, false, w, failures, whole)
  {
  }

  /** print_value and update_offset. */
  method PrintNext(current: Node, p: PrintBuffer, ghost s: Shape, ghost t: Tree) returns (ok: bool)
    requires current == s.node && Holding(s, t) && Plain(t)
    requires p.Usable() && Owned(s) <= p.others
    modifies p, p.buffer, p.mem
    ensures p.Accounted() && p.Kept() && (ok ==> p.depth == old(p.depth))
    ensures Moved(p, ok, old(p.Written()), old(p.mem.failures), Print(t, p.format, old(p.depth)))
    decreases t, 2
  {
    hide Print, Plain, Wired, Holds, Owned;
    ghost var w, text := p.Written(), Print(t, p.format, p.depth);
    ok := PrintValue(current, p, s, t);
    if ok {
      assert (w + text)[p.offset..] == text[p.offset - |w|..];
      p.UpdateOffset(w + text);
    }
  }

  /** One round of the loop in print_array. */
  method PrintElement(current: Node, p: PrintBuffer, ghost s: Shape, ghost t: Tree) returns (ok: bool)
    requires current == s.node && Holding(s, t) && Plain(t)
    requires p.Usable() && Owned(s) <= p.others && current in p.others
    modifies p, p.buffer, p.mem
    ensures p.Accounted() && p.Kept() && (ok ==> p.depth == old(p.depth))
    ensures Moved(p, ok, old(p.Written()), old(p.mem.failures),
      Print(t, p.format, old(p.depth)) + Separator(current.next != null, p.format))
    decreases t, 3
  {
    hide Print, Plain, Holding, Owned;
    ghost var w, f, text := p.Written(), p.mem.failures, Print(t, p.format, p.depth);
    ok := PrintNext(current, p, s, t);
    if !ok {
      Halted(p, w, f, text, text + Separator(current.next != null, p.format));
      return;
    }
    ghost var later := p.mem.failures;
    if current.next != null {
      ok := p.Append(if p.format then 3 else 2, if p.format then [COMMA, SPACE] else [COMMA], [NUL]);
    }
    Chained(p, ok, w, f, text, later, Separator(current.next != null, p.format));
  }

  /** Prints the first element of a row, and what is then known of the others. */
  method PrintHead(current: Node, p: PrintBuffer, ghost ss: seq<Shape>, ghost items: seq<Tree>) returns (ok: bool)
    requires current == First(ss) && AllWired(ss) && HoldsItems(ss, items) && AllPlain(items)
    requires p.Usable() && AllOwned(ss) <= p.others
    modifies p, p.buffer, p.mem
    ensures p.Accounted() && p.Kept() && (ok ==> p.depth == old(p.depth))
    ensures items != [] && Moved(p, ok, old(p.Written()), old(p.mem.failures),
      Print(items[0], p.format, old(p.depth)) + Separator(|items| > 1, p.format))
    ensures ss != [] && current.next == First(ss[1..]) && AllOwned(ss[1..]) <= AllOwned(ss)
    ensures AllWired(ss[1..]) && HoldsItems(ss[1..], items[1..]) && AllPlain(items[1..])
    decreases items, 4
  {
    hide Print, Plain, AllWired, HoldsItems, Holding, AllOwned, Owned, Separator, Moved;
    ItemRow(ss, items);
    OwnParts(ss[0]);
    ok := PrintElement(current, p, ss[0], items[0]);
  }

  /** The loop of print_array and the closing bracket. */
  method PrintElements(head: Node?, p: PrintBuffer, ghost ss: seq<Shape>, ghost items: seq<Tree>) returns (ok: bool)
    requires head == First(ss) && AllWired(ss) && HoldsItems(ss, items) && AllPlain(items)
    requires p.Usable() && p.depth > 0 && AllOwned(ss) <= p.others && |ss| == |items|
    modifies p, p.buffer, p.mem
    ensures p.Accounted() && p.Kept() && (ok ==> p.depth == old(p.depth) - 1)
    ensures Printed(p, ok, old(p.Written()), old(p.mem.failures), PrintItems(items, p.format, old(p.depth)))
    decreases items, 5
  {
    hide Print, PrintItems, AllPlain, AllWired, HoldsItems, AllOwned, Separator, Printed, Moved;
    ghost var w, fmt, depth := p.Written(), p.format, p.depth;
    ghost var all := w + PrintItems(items, fmt, depth);
    ghost var rest, ts := ss, items;
    var current := head;
    while current != null
      invariant p.Accounted() && p.Kept() && p.Usable() && p.depth == depth
      invariant current == First(rest) && AllWired(rest) && HoldsItems(rest, ts) && AllOwned(rest) <= AllOwned(ss)
      invariant AllPlain(ts) && |rest| == |ts|
      invariant |ts| <= |items| && ts == items[|items| - |ts|..]
      invariant p.Written() + PrintItems(ts, fmt, depth) == all && |w| <= p.offset
      decreases |ts|
    {
      RowBegins(rest, ts);
      ghost var before := p.Written();
      ghost var text := Print(ts[0], fmt, depth);
      ghost var sep := Separator(|ts| > 1, fmt);
      ItemsUnfold(ts, fmt, depth);
      Assembled(before, text, sep, PrintItems(ts[1..], fmt, depth));
      ghost var failures := p.mem.failures;
      ok := PrintHead(current, p, rest, ts);
      if !ok {
        Stuck(p, before, failures, text + sep, w, old(p.mem.failures), PrintItems(items, fmt, depth));
        return;
      }
      MovedOn(p, before, failures, text + sep);
      current := current.next;
      rest, ts := rest[1..], ts[1..];
    }
    ItemsPrinted(rest, ts, fmt, depth);
    ghost var done, failures := p.Written(), p.mem.failures;
    ok := CloseBracket(p, RBRACKET);
    Ended(p, ok, done, failures, [RBRACKET], w, old(p.mem.failures), PrintItems(items, fmt, depth));
  }

  lemma RowBegins(ss: seq<Shape>, items: seq<Tree>)
    requires |ss| == |items| && First(ss) != null
    ensures items != []
  {
  }

  lemma {:induction false} ItemsPrinted(ss: seq<Shape>, items: seq<Tree>, fmt: bool, depth: nat)
    requires First(ss) == null && HoldsItems(ss, items)
    ensures items == [] && PrintItems(items, fmt, depth) == [RBRACKET]
  {
  }

  lemma {:induction false} ItemsUnfold(ts: seq<Tree>, fmt: bool, depth: nat)
    requires ts != []
    ensures PrintItems(ts, fmt, depth) ==
      Print(ts[0], fmt, depth) + (Separator(|ts| > 1, fmt) + PrintItems(ts[1..], fmt, depth))
  {
  }

  lemma {:induction false} PrintedArray(s: Shape, t: Tree, fmt: bool, depth: nat)
    requires t.Arr? && Holding(s, t) && Plain(t)
    ensures s.node.child == First(s.kids) && AllWired(s.kids) && HoldsItems(s.kids, t.items) && AllPlain(t.items)
    ensures |s.kids| == |t.items|
    ensures AllOwned(s.kids) <= Owned(s) && s.node in Owned(s)
    ensures Print(t, fmt, depth) == [LBRACKET] + PrintItems(t.items, fmt, depth + 1)
  {
  }

  method PrintArray(item: Node, p: PrintBuffer, ghost s: Shape, ghost t: Tree) returns (ok: bool)
    requires t.Arr? && item == s.node && Holding(s, t) && Plain(t)
    requires p.Usable() && Owned(s) <= p.others
    modifies p, p.buffer, p.mem
    ensures p.Accounted() && p.Kept() && (ok ==> p.depth == old(p.depth))
    ensures Printed(p, ok, old(p.Written()), old(p.mem.failures), Print(t, p.format, old(p.depth)))
    decreases t, 0
  {
    hide Print, PrintItems, Plain, AllPlain, AllWired, HoldsItems, Holding, Wired, Holds, AllOwned, Owned, Printed,
      Moved;
    PrintedArray(s, t, p.format, p.depth);
    ghost var w, f0, rest := p.Written(), p.mem.failures, PrintItems(t.items, p.format, p.depth + 1);
    assert w + ([LBRACKET] + rest) == (w + [LBRACKET]) + rest;
    ok := OpenBracket(p);
    if !ok {
      Stuck(p, w, f0, [LBRACKET], w, f0, [LBRACKET] + rest);
      return;
    }
    MovedOn(p, w, f0, [LBRACKET]);
    ghost var f1 := p.mem.failures;
    ok := PrintElements(item.child, p, s.kids, t.items);
    Ended(p, ok, w + [LBRACKET], f1, rest, w, f0, [LBRACKET] + rest);
  }

  method OpenBracket(p: PrintBuffer) returns (ok: bool)
    requires p.Usable()
    modifies p, p.buffer, p.mem
    ensures p.Accounted() && p.Kept() && (ok ==> p.depth == old(p.depth) + 1)
    ensures Moved(p, ok, old(p.Written()), old(p.mem.failures), [LBRACKET])
  {
    ok := p.Append(1, [LBRACKET], []);
    p.depth := p.depth + 1;
  }

  /** A run of tabs, one store after the other. */
  method PutTabs(b: array<byte>, at: nat, n: nat)
    requires at + n <= b.Length
    modifies b
    ensures b[..at + n] == old(b[..at]) + Tabs(n)
  {
    ghost var w := b[..at];
    for i := 0 to n
      invariant b[..at + i] == w + Tabs(i)
    {
      b[at + i] := TAB;
      assert b[..at + i + 1] == b[..at + i] + [TAB];
      assert Tabs(i + 1) == Tabs(i) + [TAB];
    }
  }

  method Indent(p: PrintBuffer) returns (ok: bool)
    requires p.Usable()
    modifies p, p.buffer, p.mem
    ensures p.Accounted() && p.Kept() && p.depth == old(p.depth)
    ensures Moved(p, ok, old(p.Written()), old(p.mem.failures), When(p.format, Tabs(p.depth)))
  {
    ok := true;
    if p.format {
      ok := p.Ensure(p.depth);
      if ok {
        PutTabs(p.buffer, p.offset, p.depth);
        p.offset := p.offset + p.depth;
      }
    }
  }

  /** print_string_ptr and update_offset. */
  method PrintName(name: array<byte>, p: PrintBuffer, ghost key: Text) returns (ok: bool)
    requires p.Usable() && IsCString(name, key) && name in p.others && name != p.buffer
    modifies p, p.buffer, p.mem
    ensures p.Accounted() && p.Kept() && p.depth == old(p.depth)
    ensures Moved(p, ok, old(p.Written()), old(p.mem.failures), Quoted(key))
  {
    hide Quoted, CString;
    ghost var w, text := p.Written(), Quoted(key);
    ok := PrintString(name, p);
    if ok {
      assert (w + text)[p.offset..] == text[p.offset - |w|..];
      p.UpdateOffset(w + text);
    }
  }

  ghost function KeyPart(key: Text, fmt: bool, depth: nat): Text {
    When(fmt, Tabs(depth)) + Quoted(key) + ([COLON] + When(fmt, [TAB]))
  }

  method PrintKey(name: array<byte>, p: PrintBuffer, ghost key: Text) returns (ok: bool)
    requires p.Usable() && IsCString(name, key) && name in p.others && name != p.buffer
    modifies p, p.buffer, p.mem
    ensures p.Accounted() && p.Kept() && p.depth == old(p.depth)
    ensures Moved(p, ok, old(p.Written()), old(p.mem.failures), KeyPart(key, p.format, p.depth))
  {
    hide Quoted, Tabs, CString, Moved;
    ghost var w, f0 := p.Written(), p.mem.failures;
    ghost var indent, colon := When(p.format, Tabs(p.depth)), [COLON] + When(p.format, [TAB]);
    ok := Indent(p);
    if !ok {
      Halted(p, w, f0, indent, KeyPart(key, p.format, p.depth));
      return;
    }
    MovedOn(p, w, f0, indent);
    ghost var f1 := p.mem.failures;
    ok := PrintName(name, p, key);
    Chained(p, ok, w, f0, indent, f1, Quoted(key));
    if !ok {
      Halted(p, w, f0, indent + Quoted(key), KeyPart(key, p.format, p.depth));
      return;
    }
    MovedOn(p, w, f0, indent + Quoted(key));
    ghost var f2 := p.mem.failures;
    ok := PrintColon(p);
    Chained(p, ok, w, f0, indent + Quoted(key), f2, colon);
  }

  method PrintColon(p: PrintBuffer) returns (ok: bool)
    requires p.Usable()
    modifies p, p.buffer, p.mem
    ensures p.Accounted() && p.Kept() && p.depth == old(p.depth)
    ensures Moved(p, ok, old(p.Written()), old(p.mem.failures), [COLON] + When(p.format, [TAB]))
  {
    var colon := if p.format then [COLON, TAB] else [COLON];
    ok := p.Append(|colon|, colon, []);
  }

  method PrintEndOfMember(p: PrintBuffer, more: bool) returns (ok: bool)
    requires p.Usable()
    modifies p, p.buffer, p.mem
    ensures p.Accounted() && p.Kept() && p.depth == old(p.depth)
    ensures Moved(p, ok, old(p.Written()), old(p.mem.failures), EndOfMember(more, p.format))
  {
    var end: Text := (if more then [COMMA] else []) + (if p.format then [LF] else []);
    ok := p.Append(|end| + 1, end, [NUL]);
  }

  /** One round of the loop in print_object. */
  method PrintEntry(current: Node, p: PrintBuffer, ghost s: Shape, ghost m: Member) returns (ok: bool)
    requires current == s.node && Holding(s, m.value) && Plain(m.value) && IsCString(s.name, m.key)
    requires current.name == s.name
    requires p.Usable() && p.depth > 0 && Owned(s) <= p.others && current in p.others && s.name in p.others
    modifies p, p.buffer, p.mem
    ensures p.Accounted() && p.Kept() && (ok ==> p.depth == old(p.depth))
    ensures Moved(p, ok, old(p.Written()), old(p.mem.failures),
      PrintMember(m, p.format, old(p.depth)) + EndOfMember(current.next != null, p.format))
    decreases m.value, 3
  {
    hide Print, Plain, Holding, Owned, Moved, IsCString, EndOfMember, KeyPart, PrintMember;
    ghost var w, f0 := p.Written(), p.mem.failures;
    ghost var key, text := KeyPart(m.key, p.format, p.depth), Print(m.value, p.format, p.depth);
    ghost var end := EndOfMember(current.next != null, p.format);
    EntryParts(m, p.format, p.depth);
    OwnParts(s);
    ok := PrintKey(current.name, p, m.key);
    if !ok {
      Halted(p, w, f0, key, key + text + end);
      return;
    }
    MovedOn(p, w, f0, key);
    ghost var f1 := p.mem.failures;
    ok := PrintNext(current, p, s, m.value);
    Chained(p, ok, w, f0, key, f1, text);
    if !ok {
      Halted(p, w, f0, key + text, key + text + end);
      return;
    }
    MovedOn(p, w, f0, key + text);
    ghost var f2 := p.mem.failures;
    ok := PrintEndOfMember(p, current.next != null);
    Chained(p, ok, w, f0, key + text, f2, end);
  }

  lemma {:induction false} EntryParts(m: Member, fmt: bool, depth: nat)
    requires depth > 0
    ensures PrintMember(m, fmt, depth) == KeyPart(m.key, fmt, depth) + Print(m.value, fmt, depth)
  {
    hide Print, Quoted, Tabs;
  }

  predicate AllPlainMembers(ms: seq<Member>) { forall i | 0 <= i < |ms| :: Plain(ms[i].value) }

  /** The tabs, the closing brace and a NUL, in front of which the offset stays. */
  method CloseBrace(p: PrintBuffer) returns (ok: bool)
    requires p.Usable() && p.depth > 0
    modifies p, p.buffer, p.mem
    ensures p.Accounted() && p.Kept() && (ok ==> p.depth == old(p.depth) - 1)
    ensures Printed(p, ok, old(p.Written()), old(p.mem.failures), When(p.format, Tabs(old(p.depth) - 1)) + [RBRACE])
  {
    ok := p.Ensure(if p.format then p.depth + 1 else 2);
    if ok {
      PutBrace(p.buffer, p.offset, p.format, p.depth - 1);
      p.depth := p.depth - 1;
    }
  }

  method PutBrace(b: array<byte>, at: nat, fmt: bool, n: nat)
    requires at + |When(fmt, Tabs(n))| + 2 <= b.Length
    modifies b
    ensures var text := When(fmt, Tabs(n)) + [RBRACE];
      b[..at + |text|] == old(b[..at]) + text && b[at + |text|] == NUL
  {
    ghost var w := b[..at];
    var to := at;
    if fmt {
      PutTabs(b, at, n);
      to := at + n;
    }
    b[to] := RBRACE;
    b[to + 1] := NUL;
    assert b[..to + 1] == (w + When(fmt, Tabs(n))) + [RBRACE];
  }

  /** Prints the first member of a row, and what is then known of the others. */
  method PrintFirst(current: Node, p: PrintBuffer, ghost ss: seq<Shape>, ghost ms: seq<Member>) returns (ok: bool)
    requires current == First(ss) && AllWired(ss) && HoldsMembers(ss, ms) && AllPlainMembers(ms)
    requires p.Usable() && p.depth > 0 && AllOwned(ss) <= p.others
    modifies p, p.buffer, p.mem
    ensures p.Accounted() && p.Kept() && (ok ==> p.depth == old(p.depth))
    ensures ms != [] && Moved(p, ok, old(p.Written()), old(p.mem.failures),
      PrintMember(ms[0], p.format, old(p.depth)) + EndOfMember(|ms| > 1, p.format))
    ensures ss != [] && current.next == First(ss[1..]) && AllOwned(ss[1..]) <= AllOwned(ss)
    ensures AllWired(ss[1..]) && HoldsMembers(ss[1..], ms[1..]) && AllPlainMembers(ms[1..])
    decreases ms, 4
  {
    hide Print, PrintMember, PrintMembers, Plain, AllWired, HoldsMembers, Holding, AllOwned, Owned, EndOfMember,
      Moved, IsCString;
    MemberRow(ss, ms);
    OwnParts(ss[0]);
    ok := PrintEntry(current, p, ss[0], ms[0]);
  }

  /** The loop of print_object and the closing brace. */
  method PrintEntries(head: Node?, p: PrintBuffer, ghost ss: seq<Shape>, ghost ms: seq<Member>) returns (ok: bool)
    requires head == First(ss) && AllWired(ss) && HoldsMembers(ss, ms) && AllPlainMembers(ms)
    requires p.Usable() && p.depth > 0 && AllOwned(ss) <= p.others && |ss| == |ms|
    modifies p, p.buffer, p.mem
    ensures p.Accounted() && p.Kept() && (ok ==> p.depth == old(p.depth) - 1)
    ensures Printed(p, ok, old(p.Written()), old(p.mem.failures), PrintMembers(ms, p.format, old(p.depth)))
    decreases ms, 5
  {
    hide Print, PrintMember, PrintMembers, AllPlainMembers, AllWired, HoldsMembers, AllOwned, EndOfMember, Printed,
      Moved;
    ghost var w, fmt, depth := p.Written(), p.format, p.depth;
    ghost var all := w + PrintMembers(ms, fmt, depth);
    ghost var rest, ts := ss, ms;
    var current := head;
    while current != null
      invariant p.Accounted() && p.Kept() && p.Usable() && p.depth == depth
      invariant current == First(rest) && AllWired(rest) && HoldsMembers(rest, ts) && AllOwned(rest) <= AllOwned(ss)
      invariant AllPlainMembers(ts) && |rest| == |ts|
      invariant |ts| <= |ms| && ts == ms[|ms| - |ts|..]
      invariant p.Written() + PrintMembers(ts, fmt, depth) == all && |w| <= p.offset
      decreases |ts|
    {
      RowStarts(rest, ts);
      ghost var before := p.Written();
      ghost var text := PrintMember(ts[0], fmt, depth);
      ghost var end := EndOfMember(|ts| > 1, fmt);
      MembersUnfold(ts, fmt, depth);
      Assembled(before, text, end, PrintMembers(ts[1..], fmt, depth));
      ghost var failures := p.mem.failures;
      ok := PrintFirst(current, p, rest, ts);
      if !ok {
        Stuck(p, before, failures, text + end, w, old(p.mem.failures), PrintMembers(ms, fmt, depth));
        return;
      }
      MovedOn(p, before, failures, text + end);
      current := current.next;
      rest, ts := rest[1..], ts[1..];
    }
    MembersPrinted(rest, ts, fmt, depth);
    ghost var done, failures := p.Written(), p.mem.failures;
    ok := CloseBrace(p);
    Ended(p, ok, done, failures, When(fmt, Tabs(depth - 1)) + [RBRACE], w, old(p.mem.failures), PrintMembers(ms, fmt,
      depth));
  }

  lemma RowStarts(ss: seq<Shape>, ms: seq<Member>)
    requires |ss| == |ms| && First(ss) != null
    ensures ms != []
  {
  }

  lemma {:induction false} MembersPrinted(ss: seq<Shape>, ms: seq<Member>, fmt: bool, depth: nat)
    requires First(ss) == null && HoldsMembers(ss, ms) && depth > 0
    ensures ms == [] && PrintMembers(ms, fmt, depth) == When(fmt, Tabs(depth - 1)) + [RBRACE]
  {
  }

  lemma {:induction false} MembersUnfold(ts: seq<Member>, fmt: bool, depth: nat)
    requires ts != [] && depth > 0
    ensures PrintMembers(ts, fmt, depth) ==
      PrintMember(ts[0], fmt, depth) + (EndOfMember(|ts| > 1, fmt) + PrintMembers(ts[1..], fmt, depth))
  {
  }

  lemma {:induction false} ObjectParts(s: Shape, t: Tree, fmt: bool, depth: nat)
    requires t.Obj? && Holding(s, t) && Plain(t)
    ensures s.node.child == First(s.kids) && AllWired(s.kids) && HoldsMembers(s.kids, t.members)
    ensures AllPlainMembers(t.members)
    ensures |s.kids| == |t.members|
    ensures AllOwned(s.kids) <= Owned(s) && s.node in Owned(s)
    ensures Print(t, fmt, depth) == ([LBRACE] + When(fmt, [LF])) + PrintMembers(t.members, fmt, depth + 1)
  {
  }

  method PrintObject(item: Node, p: PrintBuffer, ghost s: Shape, ghost t: Tree) returns (ok: bool)
    requires t.Obj? && item == s.node && Holding(s, t) && Plain(t)
    requires p.Usable() && Owned(s) <= p.others
    modifies p, p.buffer, p.mem
    ensures p.Accounted() && p.Kept() && (ok ==> p.depth == old(p.depth))
    ensures Printed(p, ok, old(p.Written()), old(p.mem.failures), Print(t, p.format, old(p.depth)))
    decreases t, 0
  {
    hide Print, PrintMembers, Plain, AllPlainMembers, AllWired, HoldsMembers, Holding, Wired, Holds, AllOwned, Owned;
    hide Printed, Moved;
    ObjectParts(s, t, p.format, p.depth);
    ghost var w, f0, rest := p.Written(), p.mem.failures, PrintMembers(t.members, p.format, p.depth + 1);
    ghost var open := [LBRACE] + When(p.format, [LF]);
    assert w + (open + rest) == (w + open) + rest;
    ok := OpenBrace(p);
    if !ok {
      Stuck(p, w, f0, open, w, f0, open + rest);
      return;
    }
    MovedOn(p, w, f0, open);
    ghost var f1 := p.mem.failures;
    ok := PrintEntries(item.child, p, s.kids, t.members);
    Ended(p, ok, w + open, f1, rest, w, f0, open + rest);
  }

  method OpenBrace(p: PrintBuffer) returns (ok: bool)
    requires p.Usable()
    modifies p, p.buffer, p.mem
    ensures p.Accounted() && p.Kept() && (ok ==> p.depth == old(p.depth) + 1)
    ensures Moved(p, ok, old(p.Written()), old(p.mem.failures), [LBRACE] + When(p.format, [LF]))
  {
    var open := if p.format then [LBRACE, LF] else [LBRACE];
    ok := p.Append(|open| + 1, open, []);
    p.depth := p.depth + 1;
  }

  /** What a successful outcome leaves in the buffer, once the offset is behind the text. */
  lemma ShownFromStart(p: PrintBuffer, failures: nat, text: Text)
    requires Printed(p, true, [], failures, text)
    ensures p.Usable() && p.Shows(text) && |text| + 2 <= p.Limit()
  {
    assert [] + text == text;
  }

  lemma NotShown(p: PrintBuffer, failures: nat, text: Text)
    requires Printed(p, false, [], failures, text)
    ensures |text| + 2 > p.Limit() || p.mem.failures > failures
  {
    assert [] + text == text;
  }

  lemma {:induction false} ShownText(b: Text, text: Text)
    requires |text| < |b| && b[..|text|] == text && b[|text|] == NUL && NulFree(text)
    ensures CString(b) == text
  {
    CStringOfTerminated(text, b[|text| + 1..]);
    assert b == text + [NUL] + b[|text| + 1..];
  }

  const DEFAULT_SIZE: nat := 256

  /**
   * print, behind cJSON_Print and cJSON_PrintUnformatted: a block of exactly the text
   * and its NUL, or null and nothing kept.
   */
  method PrintText(item: Node, format: bool, canResize: bool, mem: Memory, ghost s: Shape, ghost t: Tree)
    returns (printed: array?<byte>)
    requires item == s.node && Holding(s, t) && Plain(t) && Owned(s) <= mem.live
    modifies mem
    ensures mem.failures >= old(mem.failures)
    ensures printed != null ==> fresh(printed) && mem.live == old(mem.live) + {printed}
    ensures printed != null ==> printed[..] == Print(t, format, 0) + [NUL] && printed.Length < INT_MAX
    ensures printed == null ==> mem.live == old(mem.live)
    ensures printed == null ==> |Print(t, format, 0)| + 2 > INT_MAX || mem.failures > old(mem.failures)
  {
    hide Print, Plain, Holding, Owned, Printed, Wired, Holds;
    OwnParts(s);
    ghost var text, failures := Print(t, format, 0), mem.failures;
    var buffer := mem.NewBlock(DEFAULT_SIZE);
    if buffer == null {
      return null;
    }
    var p := new PrintBuffer(buffer, false, format, canResize, mem);
    var ok := PrintValue(item, p, s, t);
    if !ok {
      NotShown(p, failures, text);
      if p.buffer != null {
        mem.Free(p.buffer);
      }
      return null;
    }
    ShownFromStart(p, failures, text);
    p.UpdateOffset(text);
    printed := Shrink(p);
  }

  /** The end of print: the text moves to a block of its own size. */
  method Shrink(p: PrintBuffer) returns (printed: array?<byte>)
    requires p.Usable() && !p.noalloc && p.Shows(p.Written())
    modifies p.mem
    ensures p.mem.failures >= old(p.mem.failures)
    ensures printed != null ==> fresh(printed) && printed[..] == old(p.Written()) + [NUL]
    ensures printed != null ==> p.mem.live == p.others + {printed}
    ensures printed == null ==> p.mem.live == p.others && p.mem.failures > old(p.mem.failures)
  {
    ghost var w := p.Written();
    var size := p.offset + 1;
    if p.canResize {
      printed := p.mem.Resize(p.buffer, size);
      if printed == null {
        p.mem.Free(p.buffer);
        return;
      }
    } else {
      printed := p.mem.NewBlock(size);
      if printed == null {
        p.mem.Free(p.buffer);
        return;
      }
      forall i | 0 <= i < size && i < p.length { printed[i] := p.buffer[i]; }
      printed[p.offset] := NUL;
      p.mem.Free(p.buffer);
    }
    assert forall i | 0 <= i < |w| :: printed[i] == w[i];
    assert printed[..] == printed[..|w|] + [printed[|w|]];
  }

  /** cJSON_PrintBuffered, from any size the caller guesses. */
  method PrintBuffered(item: Node, prebuffer: int, format: bool, canResize: bool, mem: Memory, ghost s: Shape,
      ghost t: Tree)
    returns (printed: array?<byte>)
    requires item == s.node && Holding(s, t) && Plain(t) && Owned(s) <= mem.live
    requires prebuffer <= INT_MAX && (prebuffer == 0 ==> canResize)
    modifies mem
    ensures mem.failures >= old(mem.failures)
    ensures printed != null ==> fresh(printed) && mem.live == old(mem.live) + {printed}
    ensures printed != null ==> CString(printed[..]) == Print(t, format, 0) && |Print(t, format, 0)| < printed.Length
    ensures printed == null ==> mem.live == old(mem.live)
    ensures printed == null ==> prebuffer < 0 || |Print(t, format, 0)| + 2 > INT_MAX || mem.failures > old(mem.failures)
  {
    hide Print, Plain, Holding, Owned, Printed, Wired, Holds, CString;
    if prebuffer < 0 {
      return null;
    }
    OwnParts(s);
    ghost var text, failures := Print(t, format, 0), mem.failures;
    var buffer := mem.NewBlock(prebuffer);
    if buffer == null {
      return null;
    }
    var p := new PrintBuffer(buffer, false, format, canResize, mem);
    var ok := PrintValue(item, p, s, t);
    if !ok {
      NotShown(p, failures, text);
      if p.buffer != null {
        mem.Free(p.buffer);
      }
      return null;
    }
    ShownFromStart(p, failures, text);
    printed := p.buffer;
    ShownText(printed[..], text);
  }

  /**
   * cJSON_PrintPreallocated succeeds exactly when the buffer has room for the text and
   * two more bytes; it never allocates.
   */
  method PrintPreallocated(item: Node, buffer: array<byte>, format: bool, mem: Memory, ghost s: Shape, ghost t: Tree)
    returns (ok: bool)
    requires item == s.node && Holding(s, t) && Plain(t) && Owned(s) <= mem.live && buffer !in Owned(s)
    requires buffer.Length <= INT_MAX
    modifies buffer, mem
    ensures ok <==> |Print(t, format, 0)| + 2 <= buffer.Length
    ensures ok ==> CString(buffer[..]) == Print(t, format, 0)
    ensures mem.live == old(mem.live) && mem.failures == old(mem.failures)
  {
    hide Print, Plain, Holding, Owned, Printed, Wired, Holds, CString;
    OwnParts(s);
    ghost var text, failures := Print(t, format, 0), mem.failures;
    var p := new PrintBuffer(buffer, true, format, true, mem);
    ok := PrintValue(item, p, s, t);
    if ok {
      ShownFromStart(p, failures, text);
      ShownText(buffer[..], text);
    } else {
      NotShown(p, failures, text);
    }
  }
}
