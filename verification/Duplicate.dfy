/** cJSON_Duplicate: a copy of a tree in blocks of its own. */
module Duplicate {
  import opened Bytes
  import opened Json
  import opened Heap
  import opened Lists
  import Parser

  datatype Label = Unnamed | Labelled(key: Text)

  ghost function LabelOf(b: array?<byte>): Label
    reads Block(b)
  {
    if b == null then Unnamed else Labelled(CString(b[..]))
  }

  /** cJSON_strdup */
  method Strdup(b: array<byte>, mem: Memory) returns (copy: array?<byte>)
    requires Named(b)
    modifies mem
    ensures mem.failures >= old(mem.failures)
    ensures copy == null ==> mem.live == old(mem.live) && mem.failures > old(mem.failures)
    ensures copy != null ==> fresh(copy) && mem.live == old(mem.live) + {copy} && IsCString(copy, CString(b[..]))
  {
    ghost var x, before := CString(b[..]), b[..];
    var length := StrLen(b, x);
    copy := mem.NewBlock(length + 1);
    if copy != null {
      forall i | 0 <= i < length + 1 { copy[i] := b[i]; }
      assert b[..] == before;
      Copied(b[..], copy[..], x);
    }
  }

  /** strlen */
  method StrLen(b: array<byte>, ghost x: Text) returns (n: nat)
    requires CString(b[..]) == x && |x| < b.Length
    ensures n == |x|
  {
    assert forall i | 0 <= i < |x| :: x[i] == b[..][..|x|][i];
    n := 0;
    while b[n] != NUL
      invariant n <= |x| && (n < |x| ==> b[n] == x[n])
      decreases |x| - n
    {
      n := n + 1;
    }
  }

  lemma {:induction false} Copied(b: Text, c: Text, x: Text)
    requires CString(b) == x && |x| < |b| && |c| == |x| + 1 && forall i | 0 <= i <= |x| :: c[i] == b[i]
    ensures CString(c) == x
  {
    assert c[..|x|] == b[..|x|] == x;
    CStringOfTerminated(x, []);
    assert c == x + [NUL] + [];
  }

  /** A string that may be missing. */
  method CopyString(b: array?<byte>, mem: Memory) returns (ok: bool, copy: array?<byte>)
    requires Named(b)
    modifies mem
    ensures mem.failures >= old(mem.failures) && (!ok ==> copy == null && mem.failures > old(mem.failures))
    ensures mem.live == old(mem.live) + Block(copy) && fresh(Block(copy))
    ensures ok ==> Named(copy) && LabelOf(copy) == LabelOf(b)
  {
    ok, copy := true, null;
    if b != null {
      copy := Strdup(b, mem);
      ok := copy != null;
    }
  }

  /** The value without children. */
  function Shallow(t: Tree): Tree {
    match t
    case Arr(_) => Arr([])
    case Obj(_) => Obj([])
    case _ => t
  }

  /** The strings of a node; on failure what was copied stays with `copy`. */
  method CopyStrings(copy: Node, text: array?<byte>, tag: array?<byte>, mem: Memory) returns (ok: bool)
    requires copy.valuestring == null && copy.name == null && Named(text) && Named(tag)
    modifies mem, copy`valuestring, copy`name
    ensures mem.failures >= old(mem.failures) && (!ok ==> mem.failures > old(mem.failures))
    ensures mem.live == old(mem.live) + Block(copy.valuestring) + Block(copy.name)
    ensures fresh(Block(copy.valuestring) + Block(copy.name))
    ensures copy.valuestring != null ==> copy.valuestring != copy.name
    ensures ok ==> Named(copy.valuestring) && LabelOf(copy.valuestring) == LabelOf(text)
    ensures ok ==> Named(copy.name) && LabelOf(copy.name) == LabelOf(tag)
  {
    hide CString;
    var block;
    ok, block := CopyString(text, mem);
    copy.valuestring := block;
    if !ok {
      return;
    }
    ok, block := CopyString(tag, mem);
    copy.name := block;
  }

  /** The members of the struct, except for the children. */
  method CopyFields(copy: Node, item: Node, mem: Memory, ghost s: Shape, ghost t: Tree) returns (ok: bool)
    requires item == s.node && Item(s, t) && Owned(s) <= mem.live
    requires copy.child == null && copy.valuestring == null && copy.name == null && copy !in Owned(s)
    modifies mem, copy`kind, copy`valuedouble, copy`valuestring, copy`name
    ensures mem.failures >= old(mem.failures) && (!ok ==> mem.failures > old(mem.failures))
    ensures mem.live == old(mem.live) + Block(copy.valuestring) + Block(copy.name)
    ensures fresh(Block(copy.valuestring) + Block(copy.name))
    ensures copy.valuestring != null ==> copy.valuestring != copy.name
    ensures ok ==> Holding(Shape(copy, copy.valuestring, copy.name, []), Shallow(t))
    ensures ok ==> LabelOf(copy.name) == LabelOf(s.name)
    ensures ok ==> Named(copy.name) && Item(s, t)
  {
    hide Item, Owned, AllOwned, LabelOf, Named, Holding;
    OwnParts(s);
    StringNamed(s, t);
    copy.kind := item.kind;
    copy.valuedouble := item.valuedouble;
    ok := CopyStrings(copy, item.valuestring, item.name, mem);
    if ok {
      assert Item(s, t) by { assert old(Item(s, t)); }
      LeafCopied(copy, s, t);
    }
  }

  lemma LeafCopied(copy: Node, s: Shape, t: Tree)
    requires Item(s, t) && copy.child == null && copy.kind == s.node.kind && copy.valuedouble == s.node.valuedouble
    requires Named(copy.valuestring) && LabelOf(copy.valuestring) == LabelOf(s.str)
    ensures Holding(Shape(copy, copy.valuestring, copy.name, []), Shallow(t))
  {
  }

  lemma StringNamed(s: Shape, t: Tree)
    requires Item(s, t)
    ensures Named(s.str) && Named(s.name) && s.node.valuestring == s.str && s.node.name == s.name
  {
  }

  // ---- The children.

  /** The rows of an array or an object, by index. */
  function ValuesOf(t: Tree): (ts: seq<Tree>) {
    match t
    case Arr(items) => items
    case Obj(ms) => seq(|ms|, i requires 0 <= i < |ms| => ms[i].value)
    case _ => []
  }

  lemma {:induction false} MemberAt(ss: seq<Shape>, ms: seq<Member>, i: nat)
    requires AllWired(ss) && HoldsMembers(ss, ms) && i < |ss|
    ensures |ms| == |ss| && Item(ss[i], ms[i].value) && IsCString(ss[i].name, ms[i].key)
    decreases i
  {
    if i > 0 { MemberAt(ss[1..], ms[1..], i - 1); }
  }

  /** The children of any node, by index. */
  lemma {:induction false} OpenTree(s: Shape, t: Tree)
    requires Holding(s, t)
    ensures s.node.child == First(s.kids) && AllWired(s.kids) && Items(s.kids, ValuesOf(t)) && |s.kids| == |ValuesOf(t)|
    ensures t.Obj? ==> forall i | 0 <= i < |s.kids| :: LabelOf(s.kids[i].name) == Labelled(t.members[i].key)
    ensures AllOwned(s.kids) <= Owned(s)
  {
    hide HoldsItems, HoldsMembers, AllWired, AllOwned, Owned, Item, Ring, CString;
    RowLength(s, t);
    OwnParts(s);
    forall i | 0 <= i < |s.kids|
      ensures Own(s.kids[i]) <= Owned(s.kids[i]) <= AllOwned(s.kids) && Item(s.kids[i], ValuesOf(t)[i])
      ensures t.Obj? ==> LabelOf(s.kids[i].name) == Labelled(t.members[i].key)
    {
      OwnedByAll(s.kids, i);
      OwnPart(s.kids[i]);
      if t.Arr? { ItemAt(s.kids, t.items, i); }
      if t.Obj? { MemberAt(s.kids, t.members, i); }
    }
  }

  lemma RowLength(s: Shape, t: Tree)
    requires Holding(s, t)
    ensures |s.kids| == |ValuesOf(t)|
  {
    match t
    case Arr(items) => assert HoldsItems(s.kids, items);
    case Obj(ms) => assert HoldsMembers(s.kids, ms);
    case _ =>
  }

  /** `cs` are copies of the first children. */
  ghost predicate Copies(cs: seq<Shape>, ts: seq<Tree>, labels: seq<Label>)
    reads AllOwned(cs)
  {
    && |cs| <= |ts| == |labels| && Items(cs, ts[..|cs|])
    && Joined(Heads(cs)) && AllDistinct(cs) && LabelsAre(cs, labels)
  }

  ghost predicate LabelsAre(cs: seq<Shape>, labels: seq<Label>)
    reads Parser.NameBlocks(cs)
  {
    |cs| <= |labels| && forall i | 0 <= i < |cs| :: LabelOf(cs[i].name) == labels[i]
  }

  lemma LabelsAppend(cs: seq<Shape>, c: Shape, labels: seq<Label>)
    requires |cs| < |labels| && LabelsAre(cs, labels) && LabelOf(c.name) == labels[|cs|]
    ensures LabelsAre(cs + [c], labels)
  {
    hide LabelOf;
  }

  /** A finished copy of `t`, of which only the node's own `next` is open. */
  ghost predicate Finished(c: Shape, t: Tree, tag: Label)
    reads c.node, Block(c.str), Block(c.name), AllOwned(c.kids)
  {
    Item(c, t) && Distinct(c) && LabelOf(c.name) == tag && c.node.next == null
  }

  /** The pointers that hang a copy behind the last one. */
  method Hook(copy: Node, next: Node?, newchild: Node, ghost cs: seq<Shape>)
    requires Joined(Heads(cs)) && Unique(Heads(cs)) && newchild !in Heads(cs) && newchild.next == null
    requires copy !in Heads(cs) && copy != newchild && copy.child == First(cs)
    requires if cs == [] then next == null else next == Last(cs)
    modifies copy`child, newchild`prev, (if next == null then {} else {next})`next
    ensures Joined(Heads(cs) + [newchild]) && copy.child == if cs == [] then newchild else First(cs)
  {
    hide Joined, Heads;
    if cs != [] { Parser.LastIs(cs); }
    HeadsLength(cs);
    Parser.Attach(next, newchild, Heads(cs));
    if next == null {
      copy.child := newchild;
    }
  }

  lemma HeadsLength(cs: seq<Shape>)
    ensures |Heads(cs)| == |cs|
  {
  }

  /** Hangs a finished copy behind the last one. */
  method Link(copy: Node, next: Node?, newchild: Node, ghost mem: Memory, ghost c: Shape, ghost cs: seq<Shape>,
      ghost ts: seq<Tree>, ghost labels: seq<Label>)
    requires Copies(cs, ts, labels) && |cs| < |ts| && AllOwned(cs) <= mem.live
    requires newchild == c.node && Finished(c, ts[|cs|], labels[|cs|])
    requires Owned(c) !! AllOwned(cs) && Owned(c) <= mem.live && copy !in AllOwned(cs) + Owned(c)
    requires if cs == [] then next == null else next == Last(cs)
    requires copy.child == First(cs)
    modifies copy`child, newchild`prev, (if next == null then {} else {next})`next
    ensures Copies(cs + [c], ts, labels) && copy.child == First(cs + [c])
  {
    hide Item, AllDistinct, AllOwned, Owned, Distinct, Joined, Heads, LabelOf, LabelsAre, Parser.NameBlocks;
    ghost var n := |cs|;
    HeadsUnique(cs);
    CopyApart(copy, c, cs);
    Parser.NamesOwned(cs);
    if next != null { Parser.NoNames(cs, next); }
    Parser.NoNames(cs, copy);
    Parser.NoNames(cs, newchild);
    Hook(copy, next, newchild, cs);
    HeadsAppend(cs, c);
    DistinctAppend(cs, c);
    forall i | 0 <= i < n ensures Item(cs[i], ts[i]) { assert old(Item(cs[i], ts[..n][i])); }
    assert Item(c, ts[n]) by { assert old(Item(c, ts[n])); }
    ItemsOne(c, ts[n]);
    ItemsConcat(cs, ts[..n], [c], [ts[n]]);
    assert ts[..n] + [ts[n]] == ts[..n + 1];
    LabelsAppend(cs, c, labels);
    FirstOfAppend(cs, c);
  }

  /** The nodes whose links change are in no child list. */
  lemma {:induction false} CopyApart(copy: Node, c: Shape, cs: seq<Shape>)
    requires Owned(c) !! AllOwned(cs) && copy !in AllOwned(cs) + Owned(c) && AllDistinct(cs) && Distinct(c)
    ensures c.node in Owned(c) && c.node !in Heads(cs) && copy !in Heads(cs)
    ensures AllOwned(c.kids) + Block(c.str) + Block(c.name) <= Owned(c) && c.node !in AllOwned(c.kids)
    ensures cs != [] ==> Last(cs) in AllOwned(cs) && Last(cs) in Members(Heads(cs))
    ensures forall i | 0 <= i < |cs| ::
      Members(Heads(cs)) !! AllOwned(cs[i].kids) && AllOwned(cs[i].kids) + Own(cs[i]) <= AllOwned(cs)
  {
    hide AllOwned, Owned, AllDistinct, Distinct, Heads;
    OwnParts(c);
    NodeNotIn(c, cs);
    NodeNotIn(Shape(copy, null, null, []), cs);
    if cs != [] {
      Parser.LastIs(cs);
      OwnedByAll(cs, |cs| - 1);
      OwnParts(cs[|cs| - 1]);
    }
    forall i | 0 <= i < |cs|
      ensures Members(Heads(cs)) !! AllOwned(cs[i].kids) && AllOwned(cs[i].kids) + Own(cs[i]) <= AllOwned(cs)
    {
      KidsApart(cs, i);
    }
  }

  lemma FirstOfAppend(cs: seq<Shape>, c: Shape)
    ensures First(cs + [c]) == if cs == [] then c.node else First(cs)
    ensures First(cs) == null <==> cs == []
  {
  }

  lemma {:induction false} NodeNotIn(c: Shape, cs: seq<Shape>)
    requires c.node !in AllOwned(cs)
    ensures c.node !in Heads(cs)
  {
    hide AllOwned, Owned;
    forall i | 0 <= i < |cs| ensures cs[i].node != c.node {
      OwnedByAll(cs, i);
      OwnParts(cs[i]);
    }
  }

  lemma NoCopies(ts: seq<Tree>, labels: seq<Label>)
    requires |ts| == |labels|
    ensures Copies([], ts, labels) && AllOwned([]) == {} && First([]) == null
  {
  }

  lemma {:induction false} CopiesParts(cs: seq<Shape>, ts: seq<Tree>, labels: seq<Label>)
    requires Copies(cs, ts, labels)
    ensures AllDistinct(cs) && Joined(Heads(cs)) && AllWired(cs)
  {
    hide Item, AllDistinct, AllOwned, Owned, Distinct, Joined, Heads, AllWired, Wired;
    forall i | 0 <= i < |cs| ensures Wired(cs[i]) { ItemWired(cs[i], ts[..|cs|][i]); }
    RowWired(cs);
  }

  ghost function Labels(ss: seq<Shape>): (ls: seq<Label>)
    reads AllOwned(ss)
    ensures |ls| == |ss|
    decreases ss
  {
    if ss == [] then [] else
      (if Own(ss[0]) <= Owned(ss[0]) <= AllOwned(ss) then [LabelOf(ss[0].name)] else [Unnamed]) + Labels(ss[1..])
  }

  lemma {:induction false} LabelsFound(ss: seq<Shape>)
    ensures LabelsAre(ss, Labels(ss))
  {
    hide AllOwned, Owned, LabelOf, Labels;
    forall i | 0 <= i < |ss| ensures LabelOf(ss[i].name) == Labels(ss)[i] { LabelAt(ss, i); }
  }

  lemma {:induction false} LabelAt(ss: seq<Shape>, i: nat)
    requires i < |ss|
    ensures Labels(ss)[i] == LabelOf(ss[i].name)
    decreases i
  {
    OwnPart(ss[0]);
    if i > 0 { LabelAt(ss[1..], i - 1); }
  }

  /** `newitem->child->prev = newchild` at the end: the list becomes a ring. */
  method CloseRing(copy: Node, last: Node?, ghost mem: Memory, ghost cs: seq<Shape>, ghost ts: seq<Tree>,
      ghost labels: seq<Label>)
    requires Copies(cs, ts, labels) && AllOwned(cs) <= mem.live && copy !in AllOwned(cs)
    requires copy.child == First(cs) && (cs != [] ==> last == Last(cs))
    modifies (if First(cs) == null then {} else {First(cs)})`prev
    ensures Copies(cs, ts, labels) && Ring(cs) && AllWired(cs)
  {
    hide Item, AllDistinct, AllOwned, Owned, Distinct, Joined, Heads, AllWired, Ring, LabelOf;
    HeadsUnique(cs);
    forall i | 0 <= i < |cs|
      ensures Members(Heads(cs)) !! AllOwned(cs[i].kids) && AllOwned(cs[i].kids) + Own(cs[i]) <= AllOwned(cs)
    {
      KidsApart(cs, i);
    }
    var head := copy.child;
    FirstNull(cs);
    if head != null {
      Parser.FirstIs(cs);
      Parser.LastIs(cs);
      Parser.SetPrev(head, last, Heads(cs));
      forall i | 0 <= i < |cs| ensures Item(cs[i], ts[i]) { assert old(Item(cs[i], ts[..|cs|][i])); }
      forall i | 0 <= i < |cs|
        ensures LabelOf(cs[i].name) == labels[i]
      {
        assert old(LabelOf(cs[i].name)) == labels[i];
      }
    }
    CopiesParts(cs, ts, labels);
    Parser.RingKept(cs, last);
  }

  lemma FirstNull(cs: seq<Shape>)
    ensures First(cs) == null <==> cs == []
  {
  }

  /** Finished children that are chained and closed make the value. */
  lemma CloseTree(c: Shape, t: Tree, tags: seq<Label>)
    requires Holds(Shape(c.node, c.str, c.name, []), Shallow(t))
    requires c.node.child == First(c.kids) && AllWired(c.kids) && Ring(c.kids)
    requires c.node.valuestring == c.str && c.node.name == c.name
    requires Items(c.kids, ValuesOf(t)) && |c.kids| == |ValuesOf(t)| == |tags| && LabelsAre(c.kids, tags)
    requires t.Obj? ==> forall i | 0 <= i < |tags| :: tags[i] == Labelled(t.members[i].key)
    ensures Holding(c, t)
  {
    hide AllWired, Ring, HoldsItems, HoldsMembers, AllOwned, Owned, Item;
    match t
    case Arr(items) => HeldByIndex(c.kids, items);
    case Obj(ms) => MembersByIndex(c.kids, ms, tags);
    case _ => Leafless(c, t);
  }

  lemma Leafless(c: Shape, t: Tree)
    requires !t.Arr? && !t.Obj? && c.kids == [] && c.node.child == null
    requires c.node.valuestring == c.str && c.node.name == c.name
    requires Holds(Shape(c.node, c.str, c.name, []), Shallow(t))
    ensures Holding(c, t)
  {
    assert c == Shape(c.node, c.str, c.name, []);
  }

  lemma {:induction false} MembersByIndex(cs: seq<Shape>, ms: seq<Member>, tags: seq<Label>)
    requires |cs| == |ms| == |tags| && Items(cs, ValuesOf(Obj(ms))) && LabelsAre(cs, tags)
    requires forall i | 0 <= i < |tags| :: tags[i] == Labelled(ms[i].key)
    ensures HoldsMembers(cs, ms)
    decreases |cs|
  {
    if cs != [] {
      hide Wired, CString;
      var rest := cs[1..];
      forall i | 0 <= i < |rest|
        ensures Own(rest[i]) <= Owned(rest[i]) <= AllOwned(rest) && Item(rest[i], ValuesOf(Obj(ms[1..]))[i])
        ensures Block(rest[i].name) <= Own(rest[i]) && LabelOf(rest[i].name) == tags[1..][i]
      {
        OwnedByAll(rest, i);
        OwnPart(rest[i]);
        assert rest[i] == cs[i + 1];
        assert Item(cs[i + 1], ms[i + 1].value);
      }
      assert Item(cs[0], ms[0].value) && LabelOf(cs[0].name) == Labelled(ms[0].key);
      MembersByIndex(rest, ms[1..], tags[1..]);
    }
  }

  /** The loop over the children; on failure the copies made so far hang below `copy`. */
  method CopyChildren(copy: Node, item: Node, mem: Memory, ghost s: Shape, ghost t: Tree) returns (ok: bool,
      ghost c: Shape)
    requires item == s.node && Holding(s, t) && Owned(s) <= mem.live
    requires Holds(Shape(copy, copy.valuestring, copy.name, []), Shallow(t)) && copy.child == null
    requires {copy} + Block(copy.valuestring) + Block(copy.name) <= mem.live - Owned(s)
    requires copy.valuestring != null ==> copy.valuestring != copy.name
    modifies mem, copy`child
    ensures mem.failures >= old(mem.failures) && (!ok ==> mem.failures > old(mem.failures))
    ensures c == Shape(copy, copy.valuestring, copy.name, c.kids) && Wired(c) && Distinct(c)
    ensures mem.live == old(mem.live) + AllOwned(c.kids) && fresh(AllOwned(c.kids))
    ensures ok ==> Holding(c, t)
    decreases t, 0
  {
    hide Holding, Holds, Item, Items, Copies, AllWired, AllDistinct, AllOwned, Owned, Ring, LabelOf, LabelsAre,
      Finished, Shallow, ValuesOf, Wired, Distinct, Labels;
    ghost var ss, ts, tags, cs, live := s.kids, ValuesOf(t), Labels(s.kids), [], mem.live;
    OpenTree(s, t);
    LabelsFound(ss);
    KeysTagged(s, t);
    NoCopies(ts, tags);
    ghost var rest := ss;
    var child, next: Node? := item.child, null;
    while child != null
      invariant mem.failures >= old(mem.failures) && mem.live == live + AllOwned(cs) && fresh(AllOwned(cs))
      invariant |cs| + |rest| == |ss| == |ts| && rest == ss[|cs|..]
      invariant child == First(rest) && AllWired(rest) && Items(ss, ts) && LabelsAre(ss, tags) && AllOwned(ss) <= live
      invariant Copies(cs, ts, tags) && copy.child == First(cs) && (if cs == [] then next == null else next == Last(cs))
      decreases |rest|
    {
      LastOwned(cs);
      ValueSmaller(t, |cs|);
      var newchild;
      ghost var cs';
      newchild, cs' := CopyNext(copy, child, next, mem, rest, ss, ts, tags, cs);
      cs := cs';
      if newchild == null {
        c := Shape(copy, copy.valuestring, copy.name, cs);
        UnfinishedCopy(c, ts, tags);
        return false, c;
      }
      next := newchild;
      child := child.next;
      rest := rest[1..];
    }
    LastOwned(cs);
    ok, c := FinishCopy(copy, next, mem, cs, ts, tags, t, rest);
  }

  /** One round: a child is copied and hung behind the copies before it. */
  method CopyNext(copy: Node, child: Node, next: Node?, mem: Memory, ghost rest: seq<Shape>,
      ghost ss: seq<Shape>, ghost ts: seq<Tree>, ghost tags: seq<Label>, ghost cs: seq<Shape>)
    returns (newchild: Node?, ghost cs': seq<Shape>)
    requires |ss| == |ts| == |tags| && |cs| < |ss| && rest == ss[|cs|..] && child == First(rest) && AllWired(rest)
    requires Items(ss, ts) && LabelsAre(ss, tags) && Copies(cs, ts, tags)
    requires copy.child == First(cs) && if cs == [] then next == null else next == Last(cs) && Last(cs) in AllOwned(cs)
    requires AllOwned(ss) + AllOwned(cs) + {copy} <= mem.live && AllOwned(ss) !! AllOwned(cs)
    requires copy !in AllOwned(ss) + AllOwned(cs)
    modifies mem, copy`child, (if next == null then {} else {next})`next
    ensures mem.failures >= old(mem.failures)
    ensures child.next == First(rest[1..]) && AllWired(rest[1..]) && Items(ss, ts) && LabelsAre(ss, tags)
    ensures Copies(cs', ts, tags) && copy.child == First(cs')
    ensures mem.live == old(mem.live) + AllOwned(cs') && fresh(AllOwned(cs') - AllOwned(cs))
    ensures AllOwned(cs) <= AllOwned(cs')
    ensures newchild == null ==> cs' == cs && mem.failures > old(mem.failures)
    ensures newchild != null ==> |cs'| == |cs| + 1 && newchild == Last(cs')
    decreases ts[|cs|], 4
  {
    hide Item, Items, Copies, AllWired, AllDistinct, AllOwned, Owned, LabelOf, LabelsAre, Finished, Parser.NameBlocks;
    RestOwned(ss, |cs|);
    Parser.NamesOwned(ss);
    Parser.NoNames(ss, copy);
    if next != null { Parser.NoNames(ss, next); }
    ghost var d;
    newchild, d := DuplicateChild(child, mem, rest, ss, ts, tags, |cs|);
    cs' := cs;
    if newchild != null {
      OwnParts(d);
      Link(copy, next, newchild, mem, d, cs, ts, tags);
      AllOwnedAppend(cs, d);
      cs' := cs + [d];
    }
  }

  /** The end of the loop. */
  method FinishCopy(copy: Node, last: Node?, ghost mem: Memory, ghost cs: seq<Shape>, ghost ts: seq<Tree>,
      ghost tags: seq<Label>,
      ghost t: Tree, ghost rest: seq<Shape>)
    returns (ok: bool, ghost c: Shape)
    requires Copies(cs, ts, tags) && AllOwned(cs) <= mem.live
    requires copy.child == First(cs) && (cs != [] ==> last == Last(cs))
    requires Holds(Shape(copy, copy.valuestring, copy.name, []), Shallow(t)) && ts == ValuesOf(t) && First(rest) == null
    requires |cs| + |rest| == |ts| == |tags|
    requires t.Obj? ==> |tags| == |t.members| && forall i | 0 <= i < |tags| :: tags[i] == Labelled(t.members[i].key)
    requires {copy} + Block(copy.valuestring) + Block(copy.name) !! AllOwned(cs)
    requires copy.valuestring != null ==> copy.valuestring != copy.name
    modifies (if First(cs) == null then {} else {First(cs)})`prev
    ensures ok && c == Shape(copy, copy.valuestring, copy.name, cs) && Wired(c) && Distinct(c) && Holding(c, t)
  {
    hide Holding, Holds, Item, Items, Copies, AllWired, AllDistinct, AllOwned, Owned, Ring, LabelOf, LabelsAre,
      Shallow, ValuesOf;
    FirstNull(rest);
    LastOwned(cs);
    c := Shape(copy, copy.valuestring, copy.name, cs);
    HeadApart(c);
    NoKids();
    CloseRing(copy, last, mem, cs, ts, tags);
    UnfinishedCopy(c, ts, tags);
    CopiesAll(cs, ts, tags);
    CloseTree(c, t, tags);
    ok := true;
  }

  lemma HeadApart(c: Shape)
    requires Own(c) !! AllOwned(c.kids) && (c.kids != [] ==> First(c.kids) in AllOwned(c.kids))
    ensures First(c.kids) != c.node
  {
  }

  lemma KeysTagged(s: Shape, t: Tree)
    requires Holding(s, t)
    ensures t.Obj? ==> |s.kids| == |t.members|
    ensures t.Obj? ==> forall i | 0 <= i < |s.kids| :: Labels(s.kids)[i] == Labelled(t.members[i].key)
  {
    hide Holding, AllOwned, Owned, LabelOf, Labels, Item, Items;
    OpenTree(s, t);
    forall i | 0 <= i < |s.kids| ensures Labels(s.kids)[i] == LabelOf(s.kids[i].name) { LabelAt(s.kids, i); }
  }

  lemma ValueSmaller(t: Tree, i: nat)
    requires i < |ValuesOf(t)|
    ensures ValuesOf(t)[i] < t
  {
  }

  lemma CopiesAll(cs: seq<Shape>, ts: seq<Tree>, tags: seq<Label>)
    requires Copies(cs, ts, tags) && |cs| == |ts|
    ensures Items(cs, ts) && LabelsAre(cs, tags)
  {
    assert ts[..|cs|] == ts;
  }

  lemma {:induction false} RestOwned(ss: seq<Shape>, i: nat)
    requires i <= |ss|
    ensures AllOwned(ss[i..]) <= AllOwned(ss)
    ensures i < |ss| ==> ss[i].node in AllOwned(ss) && First(ss[i..]) == ss[i].node
    ensures i < |ss| ==> AllOwned(ss[i..][1..]) <= AllOwned(ss)
  {
    hide AllOwned, Owned;
    OwnedConcat(ss[..i], ss[i..]);
    assert ss == ss[..i] + ss[i..];
    if i < |ss| {
      OwnedByAll(ss, i);
      OwnParts(ss[i]);
      OwnedConcat(ss[..i + 1], ss[i + 1..]);
      assert ss == ss[..i + 1] + ss[i + 1..] && ss[i..][1..] == ss[i + 1..];
    }
  }

  lemma {:induction false} LastOwned(cs: seq<Shape>)
    ensures cs != [] ==> Last(cs) in AllOwned(cs) && First(cs) in AllOwned(cs)
  {
    hide AllOwned, Owned;
    if cs != [] {
      OwnedByAll(cs, |cs| - 1);
      OwnedByAll(cs, 0);
      OwnParts(cs[|cs| - 1]);
      OwnParts(cs[0]);
    }
  }

  method DuplicateChild(child: Node, mem: Memory, ghost rest: seq<Shape>, ghost ss: seq<Shape>, ghost ts: seq<Tree>,
      ghost tags: seq<Label>, ghost i: nat)
    returns (copy: Node?, ghost c: Shape)
    requires |ss| == |ts| && i < |ss| && rest == ss[i..] && child == First(rest) && AllWired(rest) && Items(ss, ts)
    requires |tags| == |ss| && LabelsAre(ss, tags) && AllOwned(ss) <= mem.live
    modifies mem
    ensures mem.failures >= old(mem.failures)
    ensures child.next == First(rest[1..]) && AllWired(rest[1..]) && Items(ss, ts) && LabelsAre(ss, tags)
    ensures copy == null ==> mem.live == old(mem.live) && mem.failures > old(mem.failures)
    ensures copy != null ==> copy == c.node && Finished(c, ts[i], tags[i])
    ensures copy != null ==> fresh(Owned(c)) && mem.live == old(mem.live) + Owned(c)
    decreases ts[i], 3
  {
    hide Item, AllOwned, Owned, Finished, AllWired, LabelOf;
    OwnedByAll(ss, i);
    OwnedConcat(ss[..i], ss[i..]);
    assert ss == ss[..i] + ss[i..];
    RowNext(rest);
    copy, c := Duplicate(child, true, mem, ss[i], ts[i]);
  }

  lemma {:induction false} RowNext(ss: seq<Shape>)
    requires AllWired(ss) && ss != []
    ensures ss[0].node.next == First(ss[1..]) && AllWired(ss[1..]) && First(ss) == ss[0].node
    ensures ss[0].node in AllOwned(ss) && AllOwned(ss[1..]) <= AllOwned(ss)
  {
  }

  lemma {:induction false} UnfinishedCopy(c: Shape, ts: seq<Tree>, tags: seq<Label>)
    requires Copies(c.kids, ts, tags) && c.node.child == First(c.kids)
    requires c.node.valuestring == c.str && c.node.name == c.name
    requires c.str != null ==> c.str != c.name
    requires Own(c) !! AllOwned(c.kids)
    ensures Wired(c) && Distinct(c)
  {
    hide Item, AllOwned, Owned;
    CopiesParts(c.kids, ts, tags);
  }

  /**
   * cJSON_Duplicate: the copy holds the same value in new blocks, and no others are
   * gained; without memory nothing is.
   */
  method Duplicate(item: Node, recurse: bool, mem: Memory, ghost s: Shape, ghost t: Tree) returns (copy: Node?,
      ghost c: Shape)
    requires item == s.node && Item(s, t) && Owned(s) <= mem.live
    modifies mem
    ensures mem.failures >= old(mem.failures)
    ensures copy == null ==> mem.live == old(mem.live) && mem.failures > old(mem.failures)
    ensures copy != null ==> copy == c.node && Finished(c, if recurse then t else Shallow(t), LabelOf(s.name))
    ensures copy != null ==> fresh(Owned(c)) && mem.live == old(mem.live) + Owned(c)
    decreases t, 2
  {
    hide Holding, Item, AllOwned, Owned, LabelOf, Shallow, Holds, Finished;
    c := s;
    OwnParts(s);
    copy := mem.NewItem();
    if copy == null {
      return;
    }
    var ok;
    ok, c := FillCopy(copy, item, recurse, mem, s, t);
    if !ok {
      RowOfOne(c);
      Delete(copy, mem, [c]);
      return null, s;
    }
  }

  /** The node without its children. */
  method FillShallow(copy: Node, item: Node, mem: Memory, ghost s: Shape, ghost t: Tree)
    returns (ok: bool, ghost c: Shape)
    requires item == s.node && Item(s, t) && Owned(s) + {copy} <= mem.live && copy !in Owned(s)
    requires copy.child == null && copy.valuestring == null && copy.name == null && copy.next == null
    modifies mem, copy`kind, copy`valuedouble, copy`valuestring, copy`name
    ensures mem.failures >= old(mem.failures) && (!ok ==> mem.failures > old(mem.failures))
    ensures c == Shape(copy, copy.valuestring, copy.name, []) && Wired(c) && Distinct(c)
    ensures Owned(c) == {copy} + Block(copy.valuestring) + Block(copy.name)
    ensures mem.live == old(mem.live) + Owned(c) && fresh(Owned(c) - {copy})
    ensures copy.valuestring != null ==> copy.valuestring != copy.name
    ensures ok ==> Finished(c, Shallow(t), LabelOf(s.name)) && Item(s, t)
  {
    hide Holding, Item, AllOwned, Owned, LabelOf, Shallow, Holds, Wired, Distinct, Finished, Named;
    ok := CopyFields(copy, item, mem, s, t);
    c := Shape(copy, copy.valuestring, copy.name, []);
    Childless(c);
    if ok { FinishedIs(c, Shallow(t), LabelOf(s.name)); }
  }

  /** Everything but the allocation of the node itself. */
  method FillCopy(copy: Node, item: Node, recurse: bool, mem: Memory, ghost s: Shape,
      ghost t: Tree) returns (ok: bool, ghost c: Shape)
    requires item == s.node && Item(s, t) && Owned(s) + {copy} <= mem.live && copy !in Owned(s)
    requires copy.child == null && copy.valuestring == null && copy.name == null && copy.next == null
    modifies mem, copy`kind, copy`valuedouble, copy`valuestring, copy`name, copy`child
    ensures mem.failures >= old(mem.failures) && (!ok ==> mem.failures > old(mem.failures))
    ensures c.node == copy && Wired(c) && Distinct(c) && copy in Owned(c)
    ensures mem.live == old(mem.live) + Owned(c) && fresh(Owned(c) - {copy})
    ensures ok ==> Finished(c, if recurse then t else Shallow(t), LabelOf(s.name))
    decreases t, 1
  {
    hide Holding, Item, AllOwned, Owned, LabelOf, Shallow, Holds, Wired, Distinct, Finished, Named;
    OwnParts(s);
    ok, c := FillShallow(copy, item, mem, s, t);
    if !ok || !recurse {
      return;
    }
    ItemParts(s, t);
    FinishedParts(c, Shallow(t), LabelOf(s.name));
    ok, c := CopyChildren(copy, item, mem, s, t);
    OwnPart(c);
    if ok { FinishedIs(c, t, LabelOf(s.name)); }
  }

  lemma {:induction false} FinishedParts(c: Shape, t: Tree, tag: Label)
    requires Finished(c, t, tag)
    ensures Holds(c, t) && Named(c.name) && LabelOf(c.name) == tag && c.node.next == null
  {
  }

  lemma ItemParts(s: Shape, t: Tree)
    requires Item(s, t)
    ensures Holding(s, t) && Named(s.name)
  {
  }

  lemma {:induction false} FinishedIs(c: Shape, t: Tree, tag: Label)
    requires Holding(c, t) && Named(c.name) && Distinct(c) && LabelOf(c.name) == tag && c.node.next == null
    ensures Finished(c, t, tag)
  {
  }

  lemma {:induction false} Childless(c: Shape)
    requires c.kids == [] && c.node.child == null && c.node.valuestring == c.str && c.node.name == c.name
    requires c.str != null ==> c.str != c.name
    ensures Wired(c) && Distinct(c) && Owned(c) == Own(c) && AllOwned(c.kids) == {}
  {
  }
}
