/** The recursive-descent parser over the heap. */
module Parser {
  import opened Bytes
  import opened Numbers
  import opened Json
  import opened Heap
  import ParseSpec
  import opened StringParser

  /** buffer_skip_whitespace: the scan may reach the end, and then steps back. */
  method SkipWhitespace(buf: ParseBuffer)
    requires buf.offset <= |buf.content|
    modifies buf`offset
    ensures old(buf.offset) < |buf.content| ==> buf.offset == ParseSpec.Skip(buf.content, old(buf.offset))
    ensures old(buf.offset) == |buf.content| ==> buf.offset == old(buf.offset)
  {
    var c := buf.content;
    if buf.offset >= |c| {
      return;
    }
    while buf.offset < |c| && c[buf.offset] <= SPACE
      invariant old(buf.offset) <= buf.offset <= |c|
      invariant buf.offset < |c| ==> ParseSpec.Skip(c, buf.offset) == ParseSpec.Skip(c, old(buf.offset))
      invariant buf.offset == |c| ==> ParseSpec.Skip(c, old(buf.offset)) == |c| - 1
    {
      buf.offset := buf.offset + 1;
    }
    if buf.offset == |c| {
      buf.offset := buf.offset - 1;
    }
  }

  /** parse_number: copies at most 63 number characters and converts the copy. */
  method ParseNumber(item: Node, buf: ParseBuffer) returns (ok: bool)
    requires buf.offset < |buf.content|
    modifies buf`offset, item`kind, item`valuedouble
    ensures ok == ParseSpec.ParseNumber(buf.content, old(buf.offset)).Ok?
    ensures ok ==> var r := ParseSpec.ParseNumber(buf.content, old(buf.offset));
      buf.offset == r.next && item.kind == NumberKind && r.value == Num(item.valuedouble)
    ensures !ok ==> buf.offset == old(buf.offset) && item.kind == old(item.kind)
  {
    hide Strtod, ParseSpec.NumberEnd;
    var number := new byte[64];
    var i := CopyNumber(buf.content, buf.offset, number);
    var converted := Strtod(number[..i]);
    if converted.length == 0 {
      return false;
    }
    item.valuedouble := converted.value;
    item.kind := NumberKind;
    buf.offset := buf.offset + converted.length;
    ok := true;
  }

  method CopyNumber(c: Text, off: nat, number: array<byte>) returns (i: nat)
    requires off < |c| && number.Length == 64
    modifies number
    ensures i < 64 && off + i == ParseSpec.NumberEnd(c, off, off) && number[..i] == c[off..off + i] && number[i] == NUL
  {
    i := 0;
    while i < 63 && off + i < |c| && IsNumberByte(c[off + i])
      invariant 0 <= i <= 63 && off + i <= |c|
      invariant number[..i] == c[off..off + i]
      invariant ParseSpec.NumberEnd(c, off, off + i) == ParseSpec.NumberEnd(c, off, off)
    {
      number[i] := c[off + i];
      i := i + 1;
    }
    number[i] := NUL;
  }

  ghost function Bare(n: Node, name: array?<byte>): Shape { Shape(n, null, name, []) }

  lemma BareOwned(n: Node, name: array?<byte>)
    ensures Owned(Bare(n, name)) == {n} + Block(name) && Distinct(Bare(n, name))
  {
  }

  /** The last sibling is no part of what the siblings hold. */
  lemma {:induction false} LastApart(ss: seq<Shape>, i: nat)
    requires i < |ss| && AllDistinct(ss)
    ensures Last(ss) !in AllOwned(ss[i].kids) && AllOwned(ss[i].kids) <= AllOwned(ss)
  {
    hide *;
    OwnedByAll(ss, i);
    DistinctPair(ss, i, |ss| - 1);
    OwnParts(ss[i]);
    OwnParts(ss[|ss| - 1]);
    LastIs(ss);
  }

  lemma LastIs(ss: seq<Shape>)
    requires ss != []
    ensures Last(ss) == ss[|ss| - 1].node == Heads(ss)[|ss| - 1]
  {
  }

  /** Attaches a new node behind the last sibling, if there is one. */
  method Attach(current: Node?, n: Node, ghost ns: seq<Node>)
    requires Joined(ns) && Unique(ns) && n !in ns && n.next == null
    requires if ns == [] then current == null else current == ns[|ns| - 1]
    modifies n`prev, (if current == null then {} else {current})`next
    ensures Joined(ns + [n])
  {
    if current != null {
      current.next := n;
      n.prev := current;
    }
  }

  /** Allocates the next item of a container and attaches it to the end of the list. */
  method NewSibling(current: Node?, mem: Memory, ghost ss: seq<Shape>, ghost ts: seq<Tree>) returns (n: Node?)
    requires Values(ss, ts) && Joined(Heads(ss)) && AllDistinct(ss) && AllOwned(ss) <= mem.live
    requires if ss == [] then current == null else current == Last(ss)
    modifies mem, (if current == null then {} else {current})`next
    ensures Values(ss, ts)
    ensures n == null ==> mem.live == old(mem.live) && mem.failures == old(mem.failures) + 1 && Joined(Heads(ss))
    ensures n != null ==> fresh(n) && mem.live == old(mem.live) + {n} && mem.failures == old(mem.failures)
    ensures n != null ==> n.next == null && n.child == null && n.kind == Invalid
    ensures n != null ==> n.valuestring == null && n.name == null
    ensures n != null ==> Joined(Heads(ss) + [n]) && AllDistinct(ss + [Bare(n, null)])
  {
    hide Joined, AllDistinct, AllOwned, Owned, Holding, Heads;
    HeadsUnique(ss);
    if ss != [] { LastIs(ss); }
    forall i | 0 <= i < |ss|
      ensures current !in AllOwned(ss[i].kids) && AllOwned(ss[i].kids) <= mem.live
    {
      LastApart(ss, i);
    }
    n := mem.NewItem();
    assert n !in Heads(ss);
    if n == null {
      return;
    }
    BareOwned(n, null);
    DistinctAppend(ss, Bare(n, null));
    Attach(current, n, Heads(ss));
    forall i | 0 <= i < |ss| ensures Holding(ss[i], ts[i]) {
      assert old(Holding(ss[i], ts[i]));
      assert current !in AllOwned(ss[i].kids) + Block(ss[i].str) && n !in AllOwned(ss[i].kids) + Block(ss[i].str);
    }
  }

  /** Blocks of `s` other than the node and its name. */
  ghost function Inner(s: Shape): set<object> { Block(s.str) + AllOwned(s.kids) }

  /** `item` holds the value of a successful parse. */
  ghost predicate Stored(item: Node, s: Shape, r: ParseSpec.Parsed<Tree>)
    reads item, Owned(s)
  {
    && r.Ok? && s.node == item && s.name == item.name
    && Distinct(s)
    && Own(s) + AllOwned(s.kids) == Owned(s) && Holding(s, r.value)
  }

  ghost predicate Ready(buf: ParseBuffer)
    reads buf
  {
    ParseSpec.Terminated(buf.content) && buf.offset < |buf.content| && buf.depth <= NESTING_LIMIT
  }

  ghost predicate Untouched(item: Node)
    reads item
  {
    item.child == null && item.valuestring == null
  }

  /** The blocks gained since `before` are those of `s`, all of them new. */
  twostate predicate Gained(mem: Memory, new s: Shape)
    reads mem
  {
    mem.live == old(mem.live) + Inner(s) && fresh(Inner(s))
  }

  lemma LeafStored(item: Node, t: Tree, r: ParseSpec.Parsed<Tree>)
    requires item.child == null && r.Ok? && Holds(Shape(item, item.valuestring, item.name, []), r.value)
    requires item.valuestring != null ==> item.valuestring != item.name
    ensures Stored(item, Shape(item, item.valuestring, item.name, []), r)
  {
    var s := Shape(item, item.valuestring, item.name, []);
    assert AllOwned([]) == {} && AllDistinct([]) && AllWired([]);
    assert Wired(s);
    assert Distinct(s);
  }

  method ParseValue(item: Node, buf: ParseBuffer, mem: Memory) returns (ok: bool, ghost s: Shape)
    requires Ready(buf) && Untouched(item)
    modifies buf, mem, item`kind, item`valuestring, item`valuedouble, item`child
    ensures var r := ParseSpec.ParseValue(buf.content, old(buf.offset), old(buf.depth));
      if ok then
        Stored(item, s, r) && buf.offset == r.next && buf.depth == old(buf.depth) && Gained(mem, s)
      else
        Untouched(item) && mem.live == old(mem.live) && (r.Fail? || mem.failures > old(mem.failures))
    ensures buf.offset <= |buf.content| && mem.failures >= old(mem.failures)
    decreases |buf.content| - buf.offset, 7
  {
    hide ParseSpec.ParseString, ParseSpec.ParseNumber, ParseSpec.ParseArray, ParseSpec.ParseObject, Stored;
    var c, off := buf.content, buf.offset;
    ghost var r := ParseSpec.ParseValue(c, off, buf.depth);
    s := Shape(item, null, item.name, []);
    if At(c, off, NULL_WORD) {
      item.kind := NullKind;
      buf.offset := off + 4;
      LeafStored(item, Null, r);
      return true, s;
    }
    if At(c, off, FALSE_WORD) {
      item.kind := FalseKind;
      buf.offset := off + 5;
      LeafStored(item, Tree.Bool(false), r);
      return true, s;
    }
    if At(c, off, TRUE_WORD) {
      item.kind := TrueKind;
      buf.offset := off + 4;
      LeafStored(item, Tree.Bool(true), r);
      return true, s;
    }
    if c[off] == QUOTE {
      ok := ParseString(item, buf, mem);
      s := Shape(item, item.valuestring, item.name, []);
      if ok {
        LeafStored(item, r.value, r);
      }
      return ok, s;
    }
    if c[off] == MINUS || ZERO <= c[off] <= NINE {
      ok := ParseNumber(item, buf);
      if ok {
        LeafStored(item, r.value, r);
      }
      return ok, s;
    }
    if c[off] == LBRACKET {
      ok, s := ParseArray(item, buf, mem);
      return ok, s;
    }
    if c[off] == LBRACE {
      ok, s := ParseObject(item, buf, mem);
      return ok, s;
    }
    return false, s;
  }

  /** What filling the last, still bare sibling changes. */
  lemma {:induction false} Filled(ss: seq<Shape>, n: Node, name: array?<byte>, s: Shape, ts: seq<Tree>, t: Tree)
    requires AllDistinct(ss + [Bare(n, name)]) && s.node == n && s.name == name
    requires Distinct(s) && Inner(s) !! AllOwned(ss) && Values(ss, ts) && Holding(s, t)
    ensures AllDistinct(ss + [s]) && Values(ss + [s], ts + [t])
    ensures AllOwned(ss + [s]) == AllOwned(ss) + {n} + Block(name) + Inner(s)
  {
    hide Holding, AllDistinct, AllOwned, Owned, Distinct;
    BareOwned(n, name);
    DistinctAppend(ss, Bare(n, name));
    DistinctAppend(ss, s);
    AllOwnedAppend(ss, s);
    OwnedSplit(s);
    forall i | 0 <= i < |ss + [s]|
      ensures Owned((ss + [s])[i]) <= AllOwned(ss + [s]) && Holding((ss + [s])[i], (ts + [t])[i])
    {
      if i < |ss| { assert Holding(ss[i], ts[i]); }
    }
  }

  /** Steps over the separator and parses a value with the blanks around it. */
  method ParseNext(n: Node, buf: ParseBuffer, mem: Memory) returns (ok: bool, ghost s: Shape)
    requires buf.offset < |buf.content| - 1 && ParseSpec.Terminated(buf.content) && buf.depth <= NESTING_LIMIT
    requires Untouched(n)
    modifies buf, mem, n`kind, n`valuestring, n`valuedouble, n`child
    ensures var c, r := buf.content, NextValue(buf.content, old(buf.offset), old(buf.depth));
      if ok then
        Stored(n, s, r) && buf.offset == ParseSpec.Skip(c, r.next) && buf.depth == old(buf.depth) && Gained(mem, s)
      else
        Untouched(n) && mem.live == old(mem.live) && (r.Fail? || mem.failures > old(mem.failures))
    ensures buf.offset <= |buf.content| && mem.failures >= old(mem.failures)
    decreases |buf.content| - buf.offset, 1
  {
    hide ParseSpec.ParseValue, ParseSpec.Skip, AllDistinct, AllOwned, Distinct, Holding, Owned;
    buf.offset := buf.offset + 1;
    SkipWhitespace(buf);
    ok, s := ParseValue(n, buf, mem);
    if ok {
      SkipWhitespace(buf);
    }
  }

  /** The value behind the separator at `off`. */
  ghost function NextValue(c: Text, off: nat, depth: nat): (r: ParseSpec.Parsed<Tree>)
    requires ParseSpec.Terminated(c) && off + 1 < |c|
    ensures r.Ok? ==> off < r.next < |c|
  {
    ParseSpec.ParseValue(c, ParseSpec.Skip(c, off + 1), depth)
  }

  predicate Nameless(ss: seq<Shape>) { forall i | 0 <= i < |ss| :: ss[i].name == null }

  /** One round of the array loop: a new item is attached and a value parsed into it. */
  method ParseElement(current: Node?, buf: ParseBuffer, mem: Memory, ghost ss: seq<Shape>, ghost ts: seq<Tree>)
    returns (ok: bool, n: Node?, ghost ss': seq<Shape>)
    requires buf.offset < |buf.content| - 1 && ParseSpec.Terminated(buf.content) && buf.depth <= NESTING_LIMIT
    requires Values(ss, ts) && Joined(Heads(ss)) && AllDistinct(ss) && AllOwned(ss) <= mem.live
    requires if ss == [] then current == null else current == Last(ss)
    modifies buf, mem, (if current == null then {} else {current})`next
    ensures Joined(Heads(ss')) && AllDistinct(ss')
    ensures n == null ==> !ok && ss' == ss && Values(ss, ts)
    ensures n != null && !ok ==> ss' == ss + [Bare(n, null)] && Values(ss, ts) && Wired(Bare(n, null))
    ensures Nameless(ss) ==> Nameless(ss')
    ensures n != null ==> ss' != [] && Last(ss') == n && First(ss') == (if ss == [] then n else First(ss))
    ensures mem.live == old(mem.live) + AllOwned(ss') && fresh(AllOwned(ss') - AllOwned(ss))
    ensures AllOwned(ss) <= AllOwned(ss')
    ensures var r := NextValue(buf.content, old(buf.offset), old(buf.depth));
      if ok then
        && r.Ok? && n != null && Values(ss', ts + [r.value])
        && buf.offset == ParseSpec.Skip(buf.content, r.next) && buf.depth == old(buf.depth)
      else r.Fail? || mem.failures > old(mem.failures)
    ensures buf.offset <= |buf.content| && mem.failures >= old(mem.failures)
    decreases |buf.content| - buf.offset, 2
  {
    hide NextValue, ParseSpec.Skip, Heads, Joined, Values, AllDistinct, AllOwned, Distinct, Holding, Owned, Stored;
    ok := false;
    n := NewSibling(current, mem, ss, ts);
    ss' := ss;
    if n == null {
      return;
    }
    AllOwnedAppend(ss, Bare(n, null));
    HeadsAppend(ss, Bare(n, null));
    BareOwned(n, null);
    ghost var s;
    ok, s := ParseNext(n, buf, mem);
    ss' := ss + [if ok then s else Bare(n, null)];
    if !ok {
      BareWired(n);
      return;
    }
    ghost var r := NextValue(buf.content, old(buf.offset), old(buf.depth));
    StoredParts(n, s, r);
    Filled(ss, n, null, s, ts, r.value);
    HeadsAppend(ss, s);
  }

  lemma {:induction false} OwnedSplit(s: Shape)
    ensures Owned(s) == Own(s) + AllOwned(s.kids) == {s.node} + Block(s.name) + Inner(s)
  {
  }

  lemma BareWired(n: Node)
    requires n.child == null && n.valuestring == null
    ensures Wired(Bare(n, n.name))
  {
  }

  lemma {:induction false} StoredParts(item: Node, s: Shape, r: ParseSpec.Parsed<Tree>)
    requires Stored(item, s, r)
    ensures Distinct(s) && Holding(s, r.value) && r.Ok? && s.node == item && s.name == item.name
  {
  }

  function Prefixed<T>(ts: seq<T>, r: ParseSpec.Parsed<seq<T>>): ParseSpec.Parsed<seq<T>> {
    if r.Fail? then r else ParseSpec.Ok(ts + r.value, r.next)
  }

  lemma PrefixedTwice<T>(ts: seq<T>, us: seq<T>, r: ParseSpec.Parsed<seq<T>>)
    ensures Prefixed(ts, Prefixed(us, r)) == Prefixed(ts + us, r)
    ensures Prefixed([], r) == r
  {
    if r.Ok? {
      assert ts + (us + r.value) == (ts + us) + r.value;
      assert [] + r.value == r.value;
    }
  }

  /** One round of ParseElements behind the elements `ts`. */
  lemma {:induction false} ElementsRound(c: Text, off: nat, depth: nat, ts: seq<Tree>)
    requires ParseSpec.Terminated(c) && off + 1 < |c|
    ensures var r, all := NextValue(c, off, depth), Prefixed(ts, ElementsFrom(c, off, depth));
      if r.Fail? then all.Fail? else
        var m := ParseSpec.Skip(c, r.next);
        if c[m] == COMMA then m + 1 < |c| && all == Prefixed(ts + [r.value], ElementsFrom(c, m, depth))
        else if c[m] == RBRACKET then all == ParseSpec.Ok(ts + [r.value], m + 1)
        else all.Fail?
  {
    hide ParseSpec.ParseValue, ParseSpec.Skip;
    var r := NextValue(c, off, depth);
    if r.Ok? {
      var m := ParseSpec.Skip(c, r.next);
      if c[m] == COMMA {
        PrefixedTwice(ts, [r.value], ElementsFrom(c, m, depth));
      }
    }
  }

  lemma {:induction false} ArraySteps(c: Text, off: nat, depth: nat)
    requires ParseSpec.Terminated(c) && off < |c| && c[off] == LBRACKET
    ensures off + 1 < |c|
    ensures var r, o := ParseSpec.ParseArray(c, off, depth), ParseSpec.Skip(c, off + 1);
      if depth >= NESTING_LIMIT then r.Fail?
      else if c[o] == RBRACKET then r == ParseSpec.Ok(Arr([]), o + 1)
      else
        var e := ElementsFrom(c, o - 1, depth + 1);
        r == if e.Fail? then ParseSpec.Fail else ParseSpec.Ok(Arr(e.value), e.next)
  {
    hide ParseSpec.ParseElements;
    SkipTwice(c, off + 1);
    hide ParseSpec.Skip;
  }

  lemma {:induction false} SkipTwice(c: Text, off: nat)
    requires off < |c|
    ensures ParseSpec.Skip(c, ParseSpec.Skip(c, off)) == ParseSpec.Skip(c, off)
    decreases |c| - off
  {
    if c[off] <= SPACE && off < |c| - 1 { SkipTwice(c, off + 1); }
  }

  lemma {:induction false} WiredAll(ss: seq<Shape>, ts: seq<Tree>, ss': seq<Shape>)
    requires Values(ss, ts) && Joined(Heads(ss'))
    requires ss' == ss || exists n :: ss' == ss + [n] && Wired(n)
    ensures AllWired(ss')
  {
    hide Wired, Holds, AllWired, AllOwned, Owned;
    forall i | 0 <= i < |ss'| ensures Wired(ss'[i]) {
      if i < |ss| { assert Holding(ss[i], ts[i]); }
    }
    RowWired(ss');
  }

  lemma {:induction false} ItemsHeld(ss: seq<Shape>, ts: seq<Tree>)
    requires Values(ss, ts) && Nameless(ss)
    ensures HoldsItems(ss, ts)
    decreases |ss|
  {
    if ss != [] {
      hide Wired;
      forall i | 0 <= i < |ss[1..]| ensures Owned(ss[1..][i]) <= AllOwned(ss[1..]) && Holding(ss[1..][i], ts[1..][i]) {
        OwnedByAll(ss[1..], i);
        assert Holding(ss[i + 1], ts[i + 1]);
      }
      assert Holding(ss[0], ts[0]);
      ItemsHeld(ss[1..], ts[1..]);
    }
  }

  /** Frees what a failed container has built. */
  method Abandon(head: Node?, mem: Memory, ghost ss: seq<Shape>)
    requires head == First(ss) && AllWired(ss) && AllDistinct(ss) && AllOwned(ss) <= mem.live
    modifies mem`live
    ensures mem.live == old(mem.live) - AllOwned(ss)
  {
    if head != null {
      Delete(head, mem, ss);
    } else {
      assert ss == [];
    }
  }

  method SetPrev(head: Node, current: Node, ghost ns: seq<Node>)
    requires ns != [] && head == ns[0] && Joined(ns) && Unique(ns)
    modifies head`prev
    ensures Joined(ns) && head.prev == current
  {
    head.prev := current;
  }

  /** Closes the ring of siblings and hangs it below the container. */
  method Close(item: Node, kind: Kind, head: Node?, current: Node?, ghost mem: Memory, ghost ss: seq<Shape>,
      ghost ts: seq<Tree>)
    returns (ghost s: Shape)
    requires Values(ss, ts) && Joined(Heads(ss)) && AllDistinct(ss)
    requires head == First(ss) && (ss != [] ==> current == Last(ss)) && AllOwned(ss) <= mem.live
    requires item !in AllOwned(ss) && (item.name != null ==> item.name !in AllOwned(ss)) && item.valuestring == null
    modifies item`kind, item`child, (if head == null then {} else {head})`prev
    ensures Values(ss, ts) && Ring(ss) && item.kind == kind
    ensures s == Shape(item, null, item.name, ss) && Wired(s) && Distinct(s)
  {
    hide Holding, AllDistinct, AllOwned, Owned, Backed, Heads, Joined, AllWired;
    s := Shape(item, null, item.name, ss);
    HeadsUnique(ss);
    if ss != [] { LastIs(ss); }
    forall i | 0 <= i < |ss| ensures First(ss) !in AllOwned(ss[i].kids) && AllOwned(ss[i].kids) <= AllOwned(ss) {
      FirstApart(ss, i);
    }
    if head != null {
      var first: Node := head;
      SetPrev(first, current, Heads(ss));
      forall i | 0 <= i < |ss| ensures Holding(ss[i], ts[i]) {
        assert old(Holding(ss[i], ts[i]));
        assert first !in AllOwned(ss[i].kids) + Block(ss[i].str);
      }
    }
    label Hung:
    item.kind := kind;
    item.child := head;
    forall i | 0 <= i < |ss| ensures Holding(ss[i], ts[i]) {
      assert old@Hung(Holding(ss[i], ts[i]));
      assert ss[i].node != item && item !in AllOwned(ss[i].kids) + Block(ss[i].str);
    }
    WiredAll(ss, ts, ss);
    RingKept(ss, current);
  }

  lemma RingKept(ss: seq<Shape>, current: Node?)
    requires ss != [] ==> current == Last(ss) && Joined(Heads(ss)) && ss[0].node.prev == current
    ensures Ring(ss)
  {
    if ss != [] { RowBacked(ss, current); }
  }

  lemma {:induction false} FirstApart(ss: seq<Shape>, i: nat)
    requires i < |ss| && AllDistinct(ss)
    ensures First(ss) !in AllOwned(ss[i].kids) && AllOwned(ss[i].kids) <= AllOwned(ss)
  {
    hide *;
    FirstIs(ss);
    OwnedByAll(ss, i);
    DistinctPair(ss, i, 0);
    OwnParts(ss[i]);
    OwnParts(ss[0]);
  }

  lemma FirstIs(ss: seq<Shape>)
    requires ss != []
    ensures First(ss) == ss[0].node
  {
  }

  /** The state of a list under construction. */
  ghost predicate Building(head: Node?, current: Node?, ss: seq<Shape>, ts: seq<Tree>)
    reads AllOwned(ss), (set n | n in Heads(ss))`next, (set n | n in Heads(ss))`prev
  {
    && Values(ss, ts) && Joined(Heads(ss)) && AllDistinct(ss)
    && head == First(ss) && (if ss == [] then current == null else current == Last(ss))
  }

  lemma BuildingNone()
    ensures Building(null, null, [], []) && Nameless([]) && AllOwned([]) == {}
  {
  }

  lemma {:induction false} BuildingParts(head: Node?, current: Node?, ss: seq<Shape>, ts: seq<Tree>)
    requires Building(head, current, ss, ts)
    ensures Values(ss, ts) && Joined(Heads(ss)) && AllDistinct(ss) && (head == null <==> ss == [])
    ensures head == First(ss)
    ensures if ss == [] then current == null else current == Last(ss) && {head, current} <= AllOwned(ss)
  {
    hide Values, Joined, AllDistinct;
    HeadsUnique(ss);
  }

  lemma {:induction false} BuildingMade(head: Node?, current: Node?, ss: seq<Shape>, ts: seq<Tree>)
    requires Values(ss, ts) && Joined(Heads(ss)) && AllDistinct(ss)
    requires head == First(ss) && (if ss == [] then current == null else current == Last(ss))
    ensures Building(head, current, ss, ts)
  {
  }

  /** The do-while loop of parse_array, from the byte in front of the first element. */
  method ParseElements(buf: ParseBuffer, mem: Memory)
    returns (ok: bool, head: Node?, current: Node?, ghost ss: seq<Shape>, ghost ts: seq<Tree>)
    requires buf.offset + 1 < |buf.content| && ParseSpec.Terminated(buf.content) && buf.depth <= NESTING_LIMIT
    modifies buf, mem
    ensures var r := ElementsFrom(buf.content, old(buf.offset), old(buf.depth));
      if ok then
        && r == ParseSpec.Ok(ts, buf.offset + 1) && buf.depth == old(buf.depth) && buf.offset < |buf.content|
        && Building(head, current, ss, ts) && Nameless(ss) && ss != []
        && mem.live == old(mem.live) + AllOwned(ss) && fresh(AllOwned(ss))
      else mem.live == old(mem.live) && (r.Fail? || mem.failures > old(mem.failures))
    ensures buf.offset <= |buf.content| && mem.failures >= old(mem.failures)
    decreases |buf.content| - buf.offset, 4
  {
    hide *;
    var c := buf.content;
    ok, head, current, ss, ts := false, null, null, [], [];
    ghost var all, off, depth := ElementsFrom(c, buf.offset, buf.depth), buf.offset, buf.depth;
    BuildingNone();
    PrefixedTwice([], [], all);
    var more := true;
    while more
      invariant off <= buf.offset < |c| && (more ==> buf.offset + 1 < |c|) && buf.depth == depth
      invariant Building(head, current, ss, ts) && Nameless(ss) && (!more ==> ss != [])
      invariant mem.live == old(mem.live) + AllOwned(ss) && fresh(AllOwned(ss)) && mem.failures >= old(mem.failures)
      invariant more ==> all == Prefixed(ts, ElementsFrom(c, buf.offset, depth))
      invariant !more ==> if c[buf.offset] == RBRACKET then all == ParseSpec.Ok(ts, buf.offset + 1) else all.Fail?
      decreases |c| - buf.offset, more
    {
      ghost var r := NextValue(c, buf.offset, depth);
      ElementsRound(c, buf.offset, depth, ts);
      BuildingParts(head, current, ss, ts);
      var parsed, n;
      ghost var ss';
      parsed, n, ss' := ParseElement(current, buf, mem, ss, ts);
      if head == null {
        head := n;
      }
      if !parsed {
        WiredAll(ss, ts, ss');
        Abandon(head, mem, ss');
        return;
      }
      current := n;
      more := c[buf.offset] == COMMA;
      ss, ts := ss', ts + [r.value];
      BuildingMade(head, current, ss, ts);
    }
    if c[buf.offset] != RBRACKET {
      BuildingParts(head, current, ss, ts);
      WiredAll(ss, ts, ss);
      Abandon(head, mem, ss);
      return;
    }
    ok := true;
  }

  /** The elements behind the byte at `off`. */
  ghost function ElementsFrom(c: Text, off: nat, depth: nat): ParseSpec.Parsed<seq<Tree>>
    requires ParseSpec.Terminated(c) && off + 1 < |c|
  {
    ParseSpec.ParseElements(c, ParseSpec.Skip(c, off + 1), depth)
  }

  lemma {:induction false} ArrayStored(item: Node, s: Shape, ts: seq<Tree>, r: ParseSpec.Parsed<Tree>)
    requires s == Shape(item, null, item.name, s.kids) && Wired(s) && Distinct(s)
    requires Values(s.kids, ts) && Nameless(s.kids) && Ring(s.kids) && item.kind == ArrayKind
    requires r.Ok? && r.value == Arr(ts)
    ensures Stored(item, s, r)
  {
    hide Values, Ring, AllWired, HoldsItems, Nameless;
    ItemsHeld(s.kids, ts);
  }

  lemma InnerOfContainer(s: Shape)
    requires s.str == null
    ensures Inner(s) == AllOwned(s.kids)
  {
  }

  /** parse_array from the opening bracket to the closing one. */
  method ArrayBody(buf: ParseBuffer, mem: Memory)
    returns (ok: bool, head: Node?, current: Node?, ghost ss: seq<Shape>, ghost ts: seq<Tree>)
    requires Ready(buf) && buf.content[buf.offset] == LBRACKET
    modifies buf, mem
    ensures var r := ParseSpec.ParseArray(buf.content, old(buf.offset), old(buf.depth));
      if ok then
        && r == ParseSpec.Ok(Arr(ts), buf.offset + 1) && buf.depth == old(buf.depth) && buf.offset < |buf.content|
        && Building(head, current, ss, ts) && Nameless(ss)
        && mem.live == old(mem.live) + AllOwned(ss) && fresh(AllOwned(ss))
      else mem.live == old(mem.live) && (r.Fail? || mem.failures > old(mem.failures))
    ensures buf.offset <= |buf.content| && mem.failures >= old(mem.failures)
    decreases |buf.content| - buf.offset, 5
  {
    hide ParseSpec.ParseArray, ParseSpec.Skip, ElementsFrom, ParseSpec.Terminated, Building, AllOwned, Nameless;
    ok, head, current, ss, ts := false, null, null, [], [];
    ArraySteps(buf.content, buf.offset, buf.depth);
    if buf.depth >= NESTING_LIMIT {
      return;
    }
    buf.depth := buf.depth + 1;
    buf.offset := buf.offset + 1;
    SkipWhitespace(buf);
    if buf.content[buf.offset] != RBRACKET {
      // Step back to the byte in front of the first one.
      buf.offset := buf.offset - 1;
      ok, head, current, ss, ts := ParseElements(buf, mem);
      if !ok {
        return;
      }
    }
    ok := true;
    buf.depth := buf.depth - 1;
    if ss == [] { BuildingNone(); }
  }

  method ParseArray(item: Node, buf: ParseBuffer, mem: Memory) returns (ok: bool, ghost s: Shape)
    requires Ready(buf) && Untouched(item) && buf.content[buf.offset] == LBRACKET
    modifies buf, mem, item`kind, item`valuestring, item`valuedouble, item`child
    ensures var r := ParseSpec.ParseArray(buf.content, old(buf.offset), old(buf.depth));
      if ok then
        Stored(item, s, r) && buf.offset == r.next && buf.depth == old(buf.depth) && Gained(mem, s)
      else
        Untouched(item) && mem.live == old(mem.live) && (r.Fail? || mem.failures > old(mem.failures))
    ensures buf.offset <= |buf.content| && mem.failures >= old(mem.failures)
    decreases |buf.content| - buf.offset, 6
  {
    hide ParseSpec.ParseArray, ParseSpec.Terminated, Nameless;
    hide Stored, Building, Values, Joined, Heads, AllDistinct, AllOwned, Owned, Distinct, Wired, Ring, Inner;
    var head, current;
    ghost var ss, ts;
    s := Shape(item, null, item.name, []);
    ArraySteps(buf.content, buf.offset, buf.depth);
    ghost var r := ParseSpec.ParseArray(buf.content, buf.offset, buf.depth);
    ok, head, current, ss, ts := ArrayBody(buf, mem);
    if !ok {
      return;
    }
    BuildingParts(head, current, ss, ts);
    s := Close(item, ArrayKind, head, current, mem, ss, ts);
    buf.offset := buf.offset + 1;
    ArrayStored(item, s, ts, r);
    InnerOfContainer(s);
  }

  // ---- Objects: as arrays, with a name in front of each value.

  ghost function MemberValues(ms: seq<Member>): (ts: seq<Tree>)
    ensures |ts| == |ms| && forall i | 0 <= i < |ms| :: ts[i] == ms[i].value
  {
    seq(|ms|, i requires 0 <= i < |ms| => ms[i].value)
  }

  ghost function NameBlocks(ss: seq<Shape>): (r: set<object>)
    ensures forall o :: o in r ==> o is array<byte>
  {
    set i, o | 0 <= i < |ss| && o in Block(ss[i].name) :: o
  }

  lemma NoNames(ss: seq<Shape>, o: object)
    requires !(o is array<byte>)
    ensures o !in NameBlocks(ss)
  {
  }

  ghost predicate Keyed(ss: seq<Shape>, ms: seq<Member>)
    reads NameBlocks(ss)
  {
    |ss| == |ms| && forall i | 0 <= i < |ss| :: HasName(ss[i], ms[i].key)
  }

  lemma {:induction false} NamesOwned(ss: seq<Shape>)
    ensures NameBlocks(ss) <= AllOwned(ss)
  {
    hide AllOwned, Owned;
    forall i | 0 <= i < |ss| ensures Block(ss[i].name) <= AllOwned(ss) {
      OwnedByAll(ss, i);
      OwnedSplit(ss[i]);
    }
  }

  ghost predicate HasName(s: Shape, key: Text)
    reads Block(s.name)
  {
    IsCString(s.name, key)
  }

  /** The member behind the separator at `off`. */
  ghost function NextMember(c: Text, off: nat, depth: nat): (r: ParseSpec.Parsed<Member>)
    requires ParseSpec.Terminated(c) && off + 1 < |c|
    ensures r.Ok? ==> off < r.next < |c|
  {
    ParseSpec.ParseMember(c, ParseSpec.Skip(c, off + 1), depth)
  }

  ghost function NextName(c: Text, off: nat): (r: ParseSpec.Parsed<Text>)
    requires ParseSpec.Terminated(c) && off + 1 < |c|
    ensures r.Ok? ==> off < r.next < |c|
  {
    ParseSpec.ParseString(c, ParseSpec.Skip(c, off + 1))
  }

  /** The members behind the byte at `off`. */
  ghost function MembersFrom(c: Text, off: nat, depth: nat): ParseSpec.Parsed<seq<Member>>
    requires ParseSpec.Terminated(c) && off + 1 < |c|
  {
    ParseSpec.ParseMembers(c, ParseSpec.Skip(c, off + 1), depth)
  }

  lemma {:induction false} MemberSteps(c: Text, off: nat, depth: nat)
    requires ParseSpec.Terminated(c) && off + 1 < |c|
    ensures var k, r := NextName(c, off), NextMember(c, off, depth);
      if k.Fail? then r.Fail? else
        var m := ParseSpec.Skip(c, k.next);
        if c[m] != COLON then r.Fail? else
          && m + 1 < |c|
          && var v := NextValue(c, m, depth);
          r == if v.Fail? then ParseSpec.Fail else ParseSpec.Ok(Member(k.value, v.value), v.next)
  {
    hide ParseSpec.ParseString, ParseSpec.ParseValue, ParseSpec.Skip;
  }

  lemma {:induction false} MembersRound(c: Text, off: nat, depth: nat, ms: seq<Member>)
    requires ParseSpec.Terminated(c) && off + 1 < |c|
    ensures var r, all := NextMember(c, off, depth), Prefixed(ms, MembersFrom(c, off, depth));
      if r.Fail? then all.Fail? else
        var m := ParseSpec.Skip(c, r.next);
        if c[m] == COMMA then m + 1 < |c| && all == Prefixed(ms + [r.value], MembersFrom(c, m, depth))
        else if c[m] == RBRACE then all == ParseSpec.Ok(ms + [r.value], m + 1)
        else all.Fail?
  {
    hide ParseSpec.ParseMember, ParseSpec.Skip;
    var r := NextMember(c, off, depth);
    if r.Ok? {
      var m := ParseSpec.Skip(c, r.next);
      if c[m] == COMMA {
        PrefixedTwice(ms, [r.value], MembersFrom(c, m, depth));
      }
    }
  }

  lemma {:induction false} ObjectSteps(c: Text, off: nat, depth: nat)
    requires ParseSpec.Terminated(c) && off < |c| && c[off] == LBRACE
    ensures off + 1 < |c|
    ensures var r, o := ParseSpec.ParseObject(c, off, depth), ParseSpec.Skip(c, off + 1);
      if depth >= NESTING_LIMIT then r.Fail?
      else if c[o] == RBRACE then r == ParseSpec.Ok(Obj([]), o + 1)
      else
        var e := MembersFrom(c, o - 1, depth + 1);
        r == if e.Fail? then ParseSpec.Fail else ParseSpec.Ok(Obj(e.value), e.next)
  {
    hide ParseSpec.ParseMembers;
    SkipTwice(c, off + 1);
    hide ParseSpec.Skip;
  }

  /** Parses the name behind the separator into the new item and moves it where names belong. */
  method ParseName(n: Node, buf: ParseBuffer, mem: Memory) returns (ok: bool)
    requires buf.offset + 1 < |buf.content| && ParseSpec.Terminated(buf.content)
    requires Untouched(n) && n.name == null
    modifies buf`offset, mem, n`kind, n`valuestring, n`name
    ensures var r := NextName(buf.content, old(buf.offset));
      if ok then
        && r.Ok? && IsCString(n.name, r.value) && fresh(n.name) && mem.live == old(mem.live) + {n.name}
        && buf.offset == ParseSpec.Skip(buf.content, r.next)
      else n.name == null && mem.live == old(mem.live) && (r.Fail? || mem.failures > old(mem.failures))
    ensures Untouched(n) && buf.offset <= |buf.content| && mem.failures >= old(mem.failures)
  {
    hide ParseSpec.ParseString, ParseSpec.Skip;
    buf.offset := buf.offset + 1;
    SkipWhitespace(buf);
    ok := ParseString(n, buf, mem);
    if !ok {
      return;
    }
    SkipWhitespace(buf);
    n.name := n.valuestring;
    n.valuestring := null;
  }

  /** Parses a name, the colon and a value into the new item. */
  method ParseNamed(n: Node, buf: ParseBuffer, mem: Memory) returns (ok: bool, ghost s: Shape)
    requires buf.offset + 1 < |buf.content| && ParseSpec.Terminated(buf.content) && buf.depth <= NESTING_LIMIT
    requires Untouched(n) && n.name == null
    modifies buf, mem, n`kind, n`valuestring, n`valuedouble, n`child, n`name
    ensures var r := NextMember(buf.content, old(buf.offset), old(buf.depth));
      if ok then
        && r.Ok? && s.node == n && s.name == n.name && Distinct(s)
        && Holding(s, r.value.value) && HasName(s, r.value.key)
        && buf.offset == ParseSpec.Skip(buf.content, r.next) && buf.depth == old(buf.depth)
        && mem.live == old(mem.live) + Block(n.name) + Inner(s) && fresh(Inner(s))
      else Untouched(n) && mem.live == old(mem.live) + Block(n.name) && (r.Fail? || mem.failures > old(mem.failures))
    ensures fresh(Block(n.name)) && buf.offset <= |buf.content| && mem.failures >= old(mem.failures)
    decreases |buf.content| - buf.offset, 2
  {
    hide NextName, NextMember, NextValue, ParseSpec.Skip, AllDistinct, AllOwned, Distinct, Holding, Owned, Stored,
      Inner;
    MemberSteps(buf.content, buf.offset, buf.depth);
    s := Bare(n, null);
    ok := ParseName(n, buf, mem);
    if !ok {
      return;
    }
    if buf.content[buf.offset] != COLON {
      return false, s;
    }
    ghost var v := NextValue(buf.content, buf.offset, buf.depth);
    ok, s := ParseNext(n, buf, mem);
    if ok {
      StoredParts(n, s, v);
    }
  }

  /** One round of the object loop. */
  method ParseMember(current: Node?, buf: ParseBuffer, mem: Memory, ghost ss: seq<Shape>, ghost ms: seq<Member>)
    returns (ok: bool, n: Node?, ghost ss': seq<Shape>)
    requires buf.offset < |buf.content| - 1 && ParseSpec.Terminated(buf.content) && buf.depth <= NESTING_LIMIT
    requires Values(ss, MemberValues(ms)) && Keyed(ss, ms)
    requires Joined(Heads(ss)) && AllDistinct(ss) && AllOwned(ss) <= mem.live
    requires if ss == [] then current == null else current == Last(ss)
    modifies buf, mem, (if current == null then {} else {current})`next
    ensures Joined(Heads(ss')) && AllDistinct(ss')
    ensures n == null ==> !ok && ss' == ss && Values(ss, MemberValues(ms))
    ensures n != null && !ok ==> ss' == ss + [Bare(n, n.name)] && Values(ss, MemberValues(ms)) && Wired(Bare(n, n.name))
    ensures n != null ==> ss' != [] && Last(ss') == n && First(ss') == (if ss == [] then n else First(ss))
    ensures mem.live == old(mem.live) + AllOwned(ss') && fresh(AllOwned(ss') - AllOwned(ss))
    ensures AllOwned(ss) <= AllOwned(ss')
    ensures var r := NextMember(buf.content, old(buf.offset), old(buf.depth));
      if ok then
        && r.Ok? && n != null && Values(ss', MemberValues(ms + [r.value])) && Keyed(ss', ms + [r.value])
        && buf.offset == ParseSpec.Skip(buf.content, r.next) && buf.depth == old(buf.depth)
      else r.Fail? || mem.failures > old(mem.failures)
    ensures buf.offset <= |buf.content| && mem.failures >= old(mem.failures)
    decreases |buf.content| - buf.offset, 3
  {
    hide NextMember, ParseSpec.Skip, Heads, Joined, Values, Keyed, AllDistinct, AllOwned, Distinct, Holding, Owned;
    hide HasName, MemberValues, NameBlocks, Inner, Wired;
    ghost var ts := MemberValues(ms);
    NamesOwned(ss);
    if current != null { NoNames(ss, current); }
    n := NewSibling(current, mem, ss, ts);
    ok, ss' := false, ss;
    if n == null {
      return;
    }
    NoNames(ss, n);
    ghost var r := NextMember(buf.content, buf.offset, buf.depth);
    ghost var s;
    ok, s := ParseNamed(n, buf, mem);
    Widened(ss, n, n.name);
    NameFresh(ss, n, n.name);
    ss' := ss + [if ok then s else Bare(n, n.name)];
    if !ok {
      BareWired(n);
      return;
    }
    Filled(ss, n, n.name, s, ts, r.value.value);
    HeadsAppend(ss, s);
    KeyedAppend(ss, ms, s, r.value);
  }

  lemma {:induction false} Widened(ss: seq<Shape>, n: Node, name: array?<byte>)
    ensures AllOwned(ss + [Bare(n, name)]) == AllOwned(ss) + {n} + Block(name)
    ensures Heads(ss + [Bare(n, name)]) == Heads(ss) + [n]
  {
    hide *;
    AllOwnedAppend(ss, Bare(n, name));
    HeadsAppend(ss, Bare(n, name));
    BareOwned(n, name);
    BareNode(n, name);
  }

  lemma BareNode(n: Node, name: array?<byte>)
    ensures Bare(n, name).node == n
  {
  }

  lemma {:induction false} NameFresh(ss: seq<Shape>, n: Node, name: array?<byte>)
    requires AllDistinct(ss + [Bare(n, null)]) && Block(name) !! AllOwned(ss)
    ensures AllDistinct(ss + [Bare(n, name)])
  {
    hide *;
    DistinctAppend(ss, Bare(n, null));
    DistinctAppend(ss, Bare(n, name));
    BareOwned(n, name);
    BareOwned(n, null);
  }

  lemma KeyedAppend(ss: seq<Shape>, ms: seq<Member>, s: Shape, m: Member)
    requires Keyed(ss, ms) && HasName(s, m.key)
    ensures Keyed(ss + [s], ms + [m]) && MemberValues(ms + [m]) == MemberValues(ms) + [m.value]
  {
    hide HasName;
  }

  lemma {:induction false} MembersHeld(ss: seq<Shape>, ms: seq<Member>)
    requires Values(ss, MemberValues(ms)) && Keyed(ss, ms)
    ensures HoldsMembers(ss, ms)
    decreases |ss|
  {
    if ss != [] {
      hide Wired, IsCString;
      var ts := MemberValues(ms);
      assert MemberValues(ms[1..]) == ts[1..];
      forall i | 0 <= i < |ss[1..]|
        ensures Owned(ss[1..][i]) <= AllOwned(ss[1..]) && Holding(ss[1..][i], ts[1..][i])
        ensures HasName(ss[1..][i], ms[1..][i].key)
      {
        OwnedByAll(ss[1..], i);
        assert Holding(ss[i + 1], ts[i + 1]) && HasName(ss[i + 1], ms[i + 1].key);
      }
      assert Holding(ss[0], ts[0]) && HasName(ss[0], ms[0].key);
      MembersHeld(ss[1..], ms[1..]);
    }
  }

  /** The do-while loop of parse_object, from the byte in front of the first key. */
  method ParseMembers(buf: ParseBuffer, mem: Memory)
    returns (ok: bool, head: Node?, current: Node?, ghost ss: seq<Shape>, ghost ms: seq<Member>)
    requires buf.offset + 1 < |buf.content| && ParseSpec.Terminated(buf.content) && buf.depth <= NESTING_LIMIT
    modifies buf, mem
    ensures var r := MembersFrom(buf.content, old(buf.offset), old(buf.depth));
      if ok then
        && r == ParseSpec.Ok(ms, buf.offset + 1) && buf.depth == old(buf.depth) && buf.offset < |buf.content|
        && Building(head, current, ss, MemberValues(ms)) && Keyed(ss, ms) && ss != []
        && mem.live == old(mem.live) + AllOwned(ss) && fresh(AllOwned(ss))
      else mem.live == old(mem.live) && (r.Fail? || mem.failures > old(mem.failures))
    ensures buf.offset <= |buf.content| && mem.failures >= old(mem.failures)
    decreases |buf.content| - buf.offset, 4
  {
    hide *;
    var c := buf.content;
    ok, head, current, ss, ms := false, null, null, [], [];
    ghost var all, off, depth := MembersFrom(c, buf.offset, buf.depth), buf.offset, buf.depth;
    KeyedNone();
    PrefixedTwice([], [], all);
    var more := true;
    while more
      invariant off <= buf.offset < |c| && (more ==> buf.offset + 1 < |c|) && buf.depth == depth
      invariant Building(head, current, ss, MemberValues(ms)) && Keyed(ss, ms) && (!more ==> ss != [])
      invariant mem.live == old(mem.live) + AllOwned(ss) && fresh(AllOwned(ss)) && mem.failures >= old(mem.failures)
      invariant more ==> all == Prefixed(ms, MembersFrom(c, buf.offset, depth))
      invariant !more ==> if c[buf.offset] == RBRACE then all == ParseSpec.Ok(ms, buf.offset + 1) else all.Fail?
      decreases |c| - buf.offset, more
    {
      ghost var r := NextMember(c, buf.offset, depth);
      MembersRound(c, buf.offset, depth, ms);
      BuildingParts(head, current, ss, MemberValues(ms));
      var parsed, n;
      ghost var ss';
      parsed, n, ss' := ParseMember(current, buf, mem, ss, ms);
      if head == null {
        head := n;
      }
      if !parsed {
        WiredAll(ss, MemberValues(ms), ss');
        Abandon(head, mem, ss');
        return;
      }
      current := n;
      more := c[buf.offset] == COMMA;
      ss, ms := ss', ms + [r.value];
      BuildingMade(head, current, ss, MemberValues(ms));
    }
    if c[buf.offset] != RBRACE {
      BuildingParts(head, current, ss, MemberValues(ms));
      WiredAll(ss, MemberValues(ms), ss);
      Abandon(head, mem, ss);
      return;
    }
    ok := true;
  }

  lemma KeyedNone()
    ensures Building(null, null, [], MemberValues([])) && Keyed([], []) && AllOwned([]) == {}
  {
    BuildingNone();
    assert MemberValues([]) == [];
  }

  lemma {:induction false} ObjectStored(item: Node, s: Shape, ms: seq<Member>, r: ParseSpec.Parsed<Tree>)
    requires s == Shape(item, null, item.name, s.kids) && Wired(s) && Distinct(s)
    requires Values(s.kids, MemberValues(ms)) && Keyed(s.kids, ms) && Ring(s.kids) && item.kind == ObjectKind
    requires r.Ok? && r.value == Obj(ms)
    ensures Stored(item, s, r)
  {
    hide Values, Ring, AllWired, HoldsMembers, Keyed;
    MembersHeld(s.kids, ms);
  }

  /** parse_object from the opening bracket to the closing one. */
  method ObjectBody(buf: ParseBuffer, mem: Memory)
    returns (ok: bool, head: Node?, current: Node?, ghost ss: seq<Shape>, ghost ms: seq<Member>)
    requires Ready(buf) && buf.content[buf.offset] == LBRACE
    modifies buf, mem
    ensures var r := ParseSpec.ParseObject(buf.content, old(buf.offset), old(buf.depth));
      if ok then
        && r == ParseSpec.Ok(Obj(ms), buf.offset + 1) && buf.depth == old(buf.depth) && buf.offset < |buf.content|
        && Building(head, current, ss, MemberValues(ms)) && Keyed(ss, ms)
        && mem.live == old(mem.live) + AllOwned(ss) && fresh(AllOwned(ss))
      else mem.live == old(mem.live) && (r.Fail? || mem.failures > old(mem.failures))
    ensures buf.offset <= |buf.content| && mem.failures >= old(mem.failures)
    decreases |buf.content| - buf.offset, 5
  {
    hide ParseSpec.ParseObject, ParseSpec.Skip, MembersFrom, ParseSpec.Terminated, Building, AllOwned, MemberValues,
      Keyed, NameBlocks;
    ok, head, current, ss, ms := false, null, null, [], [];
    ObjectSteps(buf.content, buf.offset, buf.depth);
    if buf.depth >= NESTING_LIMIT {
      return;
    }
    buf.depth := buf.depth + 1;
    buf.offset := buf.offset + 1;
    SkipWhitespace(buf);
    if buf.content[buf.offset] != RBRACE {
      // Step back to the byte in front of the first one.
      buf.offset := buf.offset - 1;
      ok, head, current, ss, ms := ParseMembers(buf, mem);
      if !ok {
        return;
      }
    }
    ok := true;
    NamesOwned(ss);
    NoNames(ss, buf);
    buf.depth := buf.depth - 1;
    if ss == [] { KeyedNone(); }
  }

  method ParseObject(item: Node, buf: ParseBuffer, mem: Memory) returns (ok: bool, ghost s: Shape)
    requires Ready(buf) && Untouched(item) && buf.content[buf.offset] == LBRACE
    modifies buf, mem, item`kind, item`valuestring, item`valuedouble, item`child
    ensures var r := ParseSpec.ParseObject(buf.content, old(buf.offset), old(buf.depth));
      if ok then
        Stored(item, s, r) && buf.offset == r.next && buf.depth == old(buf.depth) && Gained(mem, s)
      else
        Untouched(item) && mem.live == old(mem.live) && (r.Fail? || mem.failures > old(mem.failures))
    ensures buf.offset <= |buf.content| && mem.failures >= old(mem.failures)
    decreases |buf.content| - buf.offset, 6
  {
    hide ParseSpec.ParseObject, ParseSpec.Terminated, MemberValues, Keyed, NameBlocks;
    hide Stored, Building, Values, Joined, Heads, AllDistinct, AllOwned, Owned, Distinct, Wired, Ring, Inner;
    var head, current;
    ghost var ss, ms;
    s := Shape(item, null, item.name, []);
    ObjectSteps(buf.content, buf.offset, buf.depth);
    ghost var r := ParseSpec.ParseObject(buf.content, buf.offset, buf.depth);
    ok, head, current, ss, ms := ObjectBody(buf, mem);
    if !ok {
      return;
    }
    BuildingParts(head, current, ss, MemberValues(ms));
    NamesOwned(ss);
    NoNames(ss, item);
    if head != null { NoNames(ss, head); }
    s := Close(item, ObjectKind, head, current, mem, ss, MemberValues(ms));
    buf.offset := buf.offset + 1;
    ObjectStored(item, s, ms, r);
    InnerOfContainer(s);
  }

  /** skip_utf8_bom */
  method SkipBom(buf: ParseBuffer)
    requires buf.content != [] && buf.offset == 0
    modifies buf`offset
    ensures buf.offset == ParseSpec.SkipBom(buf.content)
  {
    if buf.offset + 4 < |buf.content| && buf.content[..3] == ParseSpec.BOM {
      buf.offset := buf.offset + 3;
    }
  }

  lemma UntouchedRow(item: Node)
    requires Untouched(item) && item.name == null && item.next == null
    ensures AllWired([Bare(item, null)]) && AllDistinct([Bare(item, null)]) && AllOwned([Bare(item, null)]) == {item}
    ensures First([Bare(item, null)]) == item
  {
    BareOwned(item, null);
    BareWired(item);
    assert [Bare(item, null)][1..] == [];
  }

  lemma {:induction false} RootRow(item: Node, s: Shape, r: ParseSpec.Parsed<Tree>)
    requires Stored(item, s, r) && item.next == null
    ensures AllWired([s]) && AllDistinct([s]) && First([s]) == item
    ensures AllOwned([s]) == Owned(s) == {item} + Block(item.name) + Inner(s)
  {
    hide Wired, Distinct, Owned, Holds;
    OwnedSplit(s);
    assert [s][1..] == [];
  }

  /**
   * cJSON_ParseWithLengthOpts. A null result leaves no block behind, and happens only
   * for bytes that are no JSON text or when an allocation failed. A node comes with
   * the blocks of its tree and no others, in the form cJSON_Delete takes.
   */
  method ParseWithLengthOpts(content: Text, requireEnd: bool, mem: Memory)
    returns (item: Node?, end: nat, ghost ss: seq<Shape>)
    requires ParseSpec.Terminated(content)
    modifies mem
    ensures end < |content| && mem.failures >= old(mem.failures)
    ensures item == First(ss) && AllWired(ss) && AllDistinct(ss) && fresh(AllOwned(ss))
    ensures mem.live == old(mem.live) + AllOwned(ss)
    ensures var r := ParseSpec.ParseText(content, requireEnd);
      if item != null then |ss| == 1 && Stored(item, ss[0], r) && end == r.next
      else ss == [] && (r.Fail? || mem.failures > old(mem.failures))
  {
    hide ParseSpec.ParseValue, ParseSpec.Skip, ParseSpec.SkipBom, Stored, AllWired, AllDistinct, AllOwned, Owned,
      Bare, Inner;
    end, ss := 0, [];
    NoRow();
    var buf := new ParseBuffer(content);
    item := mem.NewItem();
    if item == null {
      return;
    }
    SkipBom(buf);
    SkipWhitespace(buf);
    ghost var r := ParseSpec.ParseValue(content, buf.offset, 0);
    ghost var s;
    var ok;
    ok, s := ParseValue(item, buf, mem);
    if ok {
      Renamed(item, s, r, ParseSpec.ParseText(content, requireEnd));
      RootRow(item, s, r);
      if requireEnd {
        SkipWhitespace(buf);
        ok := content[buf.offset] == NUL;
      }
    } else {
      s := Bare(item, null);
      UntouchedRow(item);
    }
    if !ok {
      Delete(item, mem, [s]);
      end := if buf.offset < |content| then buf.offset else |content| - 1;
      return null, end, [];
    }
    end, ss := buf.offset, [s];
  }

  /** A caller that parses a text and deletes the result is left with the blocks it had. */
  method ParseAndDelete(content: Text, requireEnd: bool, mem: Memory) returns (ok: bool)
    requires ParseSpec.Terminated(content)
    modifies mem
    ensures mem.live == old(mem.live)
    ensures ok ==> ParseSpec.ParseText(content, requireEnd).Ok?
    ensures !ok ==> ParseSpec.ParseText(content, requireEnd).Fail? || mem.failures > old(mem.failures)
  {
    hide ParseSpec.ParseText, AllWired, AllDistinct, AllOwned;
    var item, end;
    ghost var ss;
    item, end, ss := ParseWithLengthOpts(content, requireEnd, mem);
    ok := item != null;
    Delete(item, mem, ss);
  }

  lemma NoRow()
    ensures First([]) == null && AllWired([]) && AllDistinct([]) && AllOwned([]) == {}
  {
  }

  /** What is stored is the value, wherever the text ends. */
  lemma Renamed(item: Node, s: Shape, r: ParseSpec.Parsed<Tree>, r': ParseSpec.Parsed<Tree>)
    requires Stored(item, s, r)
    ensures r'.Ok? && r'.value == r.value ==> Stored(item, s, r')
    ensures r.Ok? && s.name == item.name
  {
  }
}
