/** The sibling lists: every operation on the links is an operation on a sequence. */
module Lists {
  import opened Heap
  import opened Json

  ghost function Members(ns: seq<Node>): set<Node> { set n | n in ns }

  /** The one before, and the tail for the head. */
  ghost function PrevOf(ns: seq<Node>, i: nat): Node
    requires i < |ns|
  {
    if i == 0 then ns[|ns| - 1] else ns[i - 1]
  }

  /** `ns` are the children of `parent`: linked both ways, the head's `prev` is the tail. */
  ghost predicate Chain(parent: Node, ns: seq<Node>)
    reads parent`child, Members(ns)`next, Members(ns)`prev
  {
    && Unique(ns) && parent !in ns
    && parent.child == (if ns == [] then null else ns[0])
    && forall i | 0 <= i < |ns| :: ns[i] in Members(ns) && ns[i].next == After(ns, i) && ns[i].prev == PrevOf(ns, i)
  }

  /** What the links around one member are. */
  lemma Around(parent: Node, ns: seq<Node>, k: nat)
    requires Chain(parent, ns) && k < |ns|
    ensures ns[k] in Members(ns) && ns[k].next == After(ns, k) && ns[k].prev == PrevOf(ns, k)
    ensures PrevOf(ns, k) == ns[if k == 0 then |ns| - 1 else k - 1]
    ensures After(ns, k) == if k + 1 < |ns| then ns[k + 1] else null
    ensures ns[if k == 0 then |ns| - 1 else k - 1] in Members(ns) && (k + 1 < |ns| ==> ns[k + 1] in Members(ns))
    ensures (ns[k] == parent.child <==> k == 0) && (ns[k].prev == ns[k] <==> |ns| == 1)
    ensures parent !in Members(ns)
  {
  }

  lemma Empty(parent: Node, ns: seq<Node>)
    requires Chain(parent, ns)
    ensures parent.child == if ns == [] then null else ns[0]
  {
  }

  /** get_array_item */
  method GetArrayItem(parent: Node, index: nat, ghost ns: seq<Node>) returns (item: Node?)
    requires Chain(parent, ns)
    ensures index < |ns| ==> item == ns[index]
    ensures index >= |ns| ==> item == null
  {
    hide After, PrevOf, Chain;
    if ns != [] { Around(parent, ns, 0); }
    Empty(parent, ns);
    item := parent.child;
    var left := index;
    ghost var i := 0;
    while item != null && left > 0
      invariant 0 <= i <= |ns| && i + left == index
      invariant if i < |ns| then item == ns[i] else item == null
      decreases left
    {
      Around(parent, ns, i);
      left := left - 1;
      item := item.next;
      i := i + 1;
    }
  }

  /** suffix_object */
  method SuffixObject(prev: Node, item: Node)
    modifies prev`next, item`prev
    ensures prev.next == item && item.prev == prev
  {
    prev.next := item;
    item.prev := prev;
  }

  /** add_item_to_array, for an item that is in no list. */
  method AddItemToArray(parent: Node, item: Node, ghost ns: seq<Node>) returns (ok: bool)
    requires Chain(parent, ns) && item !in ns && (ns != [] ==> item.next == null)
    modifies parent`child, item`next, item`prev, Members(ns)`next, Members(ns)`prev
    ensures ok == (parent != item)
    ensures Chain(parent, if ok then ns + [item] else ns)
  {
    hide After, PrevOf;
    if parent == item {
      return false;
    }
    var child := parent.child;
    if child == null {
      parent.child := item;
      item.prev := item;
      item.next := null;
    } else {
      Around(parent, ns, 0);
      if child.prev != null {
        SuffixObject(child.prev, item);
        parent.child.prev := item;
      }
    }
    ok := true;
    ghost var m := ns + [item];
    forall j | 0 <= j < |m| ensures m[j].next == After(m, j) && m[j].prev == PrevOf(m, j) {
      Appended(ns, item, j);
      if j < |ns| { assert m[j] == ns[j] && old(ns[j].next == After(ns, j) && ns[j].prev == PrevOf(ns, j)); }
    }
  }

  lemma Appended(ns: seq<Node>, n: Node, j: nat)
    requires j <= |ns|
    ensures var m := ns + [n];
      && After(m, j) == (if j == |ns| then null else if j == |ns| - 1 then n else After(ns, j))
      && PrevOf(m, j) == if j == 0 then n else if j == |ns| then ns[j - 1] else PrevOf(ns, j)
  {
  }

  lemma Detached(ns: seq<Node>, k: nat, j: nat)
    requires k < |ns| && j < |ns| - 1
    ensures var m, i := ns[..k] + ns[k + 1..], if j < k then j else j + 1;
      && m[j] == ns[i]
      && After(m, j) == (if i + 1 == k then After(ns, k) else After(ns, i))
      && PrevOf(m, j) == if i == k + 1 || (i == 0 && k == |ns| - 1) then PrevOf(ns, k) else PrevOf(ns, i)
  {
  }

  lemma InsertedAt(ns: seq<Node>, k: nat, n: Node, j: nat)
    requires k < |ns| && j <= |ns|
    ensures var m, i := Inserted(ns, k, n), if j < k then j else j - 1;
      && m[j] == (if j == k then n else ns[i])
      && After(m, j) == (if j == k then ns[k] else if i + 1 == k then n else After(ns, i))
      && PrevOf(m, j) == if j == k then PrevOf(ns, k) else if i == k then n else PrevOf(ns, i)
  {
  }

  lemma Replaced(ns: seq<Node>, k: nat, n: Node, j: nat)
    requires k < |ns| && j < |ns|
    ensures var m := ns[k := n];
      && After(m, j) == (if j + 1 == k then n else After(ns, j))
      && PrevOf(m, j) ==
        if j == k then (if |ns| == 1 then n else PrevOf(ns, k))
        else if j == k + 1 || (j == 0 && k == |ns| - 1) then n else PrevOf(ns, j)
  {
  }

  /** cJSON_DetachItemViaPointer */
  method DetachItemViaPointer(parent: Node, item: Node, ghost ns: seq<Node>, ghost k: nat)
    requires Chain(parent, ns) && k < |ns| && item == ns[k]
    modifies parent`child, Members(ns)`next, Members(ns)`prev
    ensures Chain(parent, ns[..k] + ns[k + 1..])
    ensures item.next == null && item.prev == null
  {
    hide After, PrevOf;
    Around(parent, ns, k);
    Around(parent, ns, 0);
    if item != parent.child {
      item.prev.next := item.next;
    }
    if item.next != null {
      item.next.prev := item.prev;
    }
    if item == parent.child {
      parent.child := item.next;
    } else if item.next == null {
      parent.child.prev := item.prev;
    }
    item.prev := null;
    item.next := null;
    ghost var m := ns[..k] + ns[k + 1..];
    forall j | 0 <= j < |m| ensures m[j].next == After(m, j) && m[j].prev == PrevOf(m, j) {
      ghost var i := if j < k then j else j + 1;
      Detached(ns, k, j);
      assert m[j] == ns[i] && old(ns[i].next == After(ns, i) && ns[i].prev == PrevOf(ns, i));
    }
  }

  /** cJSON_InsertItemInArray; behind the end it appends, which alone leaves `next` as it was. */
  method InsertItemInArray(parent: Node, which: int, newitem: Node, ghost ns: seq<Node>) returns (ok: bool)
    requires Chain(parent, ns) && newitem !in ns
    requires if 0 <= which < |ns| then newitem != parent else ns != [] ==> newitem.next == null
    modifies parent`child, newitem`next, newitem`prev, Members(ns)`next, Members(ns)`prev
    ensures ok == (which >= 0 && newitem != parent)
    ensures Chain(parent, if ok then Inserted(ns, which, newitem) else ns)
  {
    hide After, PrevOf;
    if which < 0 {
      return false;
    }
    var afterInserted := GetArrayItem(parent, which, ns);
    if afterInserted == null {
      ok := AddItemToArray(parent, newitem, ns);
      return;
    }
    InsertBefore(parent, newitem, afterInserted, ns, which);
    ok := true;
  }

  method InsertBefore(parent: Node, newitem: Node, afterInserted: Node, ghost ns: seq<Node>, ghost k: nat)
    requires Chain(parent, ns) && newitem !in ns && newitem != parent && k < |ns| && afterInserted == ns[k]
    modifies parent`child, newitem`next, newitem`prev, Members(ns)`next, Members(ns)`prev
    ensures Chain(parent, Inserted(ns, k, newitem))
  {
    hide After, PrevOf, Inserted;
    Around(parent, ns, k);
    newitem.next := afterInserted;
    newitem.prev := afterInserted.prev;
    afterInserted.prev := newitem;
    if afterInserted == parent.child {
      parent.child := newitem;
    } else {
      newitem.prev.next := newitem;
    }
    ghost var m := Inserted(ns, k, newitem);
    InsertedApart(parent, ns, k, newitem);
    forall j | 0 <= j < |m| ensures m[j].next == After(m, j) && m[j].prev == PrevOf(m, j) {
      InsertedAt(ns, k, newitem, j);
      if j != k {
        ghost var i := if j < k then j else j - 1;
        assert m[j] == ns[i] && old(ns[i].next == After(ns, i) && ns[i].prev == PrevOf(ns, i));
      }
    }
  }

  lemma InsertedApart(parent: Node, ns: seq<Node>, k: nat, n: Node)
    requires Unique(ns) && parent !in ns && n !in ns && n != parent && k < |ns|
    ensures var m := Inserted(ns, k, n);
      |m| == |ns| + 1 && Unique(m) && parent !in m && m[0] == if k == 0 then n else ns[0]
  {
  }

  ghost function Inserted(ns: seq<Node>, which: nat, n: Node): seq<Node> {
    if which < |ns| then ns[..which] + [n] + ns[which..] else ns + [n]
  }

  /** The links of cJSON_ReplaceItemViaPointer. */
  method ReplaceLinks(parent: Node, item: Node, replacement: Node, ghost ns: seq<Node>, ghost k: nat)
    requires Chain(parent, ns) && k < |ns| && item == ns[k] && replacement !in ns && replacement != parent
    modifies parent`child, replacement`next, replacement`prev, Members(ns)`next, Members(ns)`prev
    ensures Chain(parent, ns[k := replacement])
    ensures item.next == null && item.prev == null
  {
    hide After, PrevOf;
    Around(parent, ns, k);
    Around(parent, ns, 0);
    replacement.next := item.next;
    replacement.prev := item.prev;
    if replacement.next != null {
      replacement.next.prev := replacement;
    }
    if parent.child == item {
      if parent.child.prev == parent.child {
        replacement.prev := replacement;
      }
      parent.child := replacement;
    } else {
      if replacement.prev != null {
        replacement.prev.next := replacement;
      }
      if replacement.next == null {
        parent.child.prev := replacement;
      }
    }
    item.next := null;
    item.prev := null;
    ghost var m := ns[k := replacement];
    forall j | 0 <= j < |m| ensures m[j].next == After(m, j) && m[j].prev == PrevOf(m, j) {
      Replaced(ns, k, replacement, j);
      if j != k { assert m[j] == ns[j] && old(ns[j].next == After(ns, j) && ns[j].prev == PrevOf(ns, j)); }
    }
  }

  // ---- The same operations on the values the lists hold.

  ghost predicate Item(s: Shape, t: Tree)
    reads s.node`kind, s.node`valuedouble, s.node`valuestring, s.node`name, s.node`child, Block(s.str),
      Block(s.name), AllOwned(s.kids)
  {
    Holding(s, t) && Named(s.name)
  }

  /** The children by index. */
  ghost predicate Items(ss: seq<Shape>, ts: seq<Tree>)
    reads AllOwned(ss)
  {
    |ss| == |ts| && forall i | 0 <= i < |ss| :: Own(ss[i]) <= Owned(ss[i]) <= AllOwned(ss) && Item(ss[i], ts[i])
  }

  lemma {:induction false} ItemAt(ss: seq<Shape>, ts: seq<Tree>, i: nat)
    requires AllWired(ss) && HoldsItems(ss, ts) && i < |ss|
    ensures |ts| == |ss| && Item(ss[i], ts[i]) && ss[i].node.next == After(Heads(ss), i)
    decreases i
  {
    if i > 0 {
      ItemAt(ss[1..], ts[1..], i - 1);
      HeadsTail(ss);
    }
  }

  lemma {:induction false} BackAt(p: Node, ss: seq<Shape>, i: nat)
    requires Backed(p, ss) && i < |ss|
    ensures ss[i].node.prev == if i == 0 then p else ss[i - 1].node
    decreases i
  {
    if i > 0 { BackAt(ss[0].node, ss[1..], i - 1); }
  }

  /** What an array node says about its children. */
  lemma {:induction false} OpenArray(s: Shape, ts: seq<Tree>)
    requires Holding(s, Arr(ts)) && Distinct(s)
    ensures Chain(s.node, Heads(s.kids)) && Items(s.kids, ts) && s.node.kind == ArrayKind && s.str == null
    ensures AllDistinct(s.kids) && Own(s) !! AllOwned(s.kids) && |s.kids| == |ts|
  {
    var ss, ns := s.kids, Heads(s.kids);
    hide Holds, Wired, HoldsItems, AllWired, AllDistinct, Ring, AllOwned, Owned, Own, Item, After, PrevOf, Distinct;
    ArrayParts(s, ts);
    HeadsUnique(ss);
    forall i | 0 <= i < |ss|
      ensures Own(ss[i]) <= Owned(ss[i]) <= AllOwned(ss) && Item(ss[i], ts[i])
      ensures ns[i].next == After(ns, i) && ns[i].prev == PrevOf(ns, i)
    {
      ItemAt(ss, ts, i);
      OwnedByAll(ss, i);
      OwnPart(ss[i]);
      RingAt(ss, i);
    }
    NotOwnChild(s);
  }

  lemma RingAt(ss: seq<Shape>, i: nat)
    requires Ring(ss) && i < |ss|
    ensures ss[i].node.prev == PrevOf(Heads(ss), i)
  {
    hide Backed;
    BackAt(Last(ss), ss, i);
  }

  lemma NotOwnChild(s: Shape)
    requires Own(s) !! AllOwned(s.kids)
    ensures s.node !in Heads(s.kids) && First(s.kids) == if Heads(s.kids) == [] then null else Heads(s.kids)[0]
  {
    hide AllOwned, Owned;
    forall i | 0 <= i < |s.kids| ensures s.kids[i].node != s.node {
      OwnedByAll(s.kids, i);
      OwnParts(s.kids[i]);
    }
  }

  lemma {:induction false} OwnPart(s: Shape)
    ensures Own(s) <= Owned(s) && Owned(s) == Own(s) + AllOwned(s.kids)
  {
  }

  lemma {:induction false} ArrayParts(s: Shape, ts: seq<Tree>)
    requires Holding(s, Arr(ts)) && Distinct(s)
    ensures s.node.kind == ArrayKind && s.str == null && s.node.child == First(s.kids)
    ensures AllWired(s.kids) && HoldsItems(s.kids, ts) && Ring(s.kids) && |s.kids| == |ts|
    ensures AllDistinct(s.kids) && Own(s) !! AllOwned(s.kids) && s.node in Own(s)
  {
  }

  lemma {:induction false} HeldByIndex(ss: seq<Shape>, ts: seq<Tree>)
    requires Items(ss, ts)
    ensures HoldsItems(ss, ts)
    decreases |ss|
  {
    if ss != [] {
      hide Wired;
      forall i | 0 <= i < |ss[1..]|
        ensures Own(ss[1..][i]) <= Owned(ss[1..][i]) <= AllOwned(ss[1..]) && Item(ss[1..][i], ts[1..][i])
      {
        OwnedByAll(ss[1..], i);
        assert Item(ss[i + 1], ts[i + 1]);
      }
      assert Item(ss[0], ts[0]);
      HeldByIndex(ss[1..], ts[1..]);
    }
  }

  /** Children that are chained and hold `ts` make an array. */
  lemma {:induction false} CloseArray(s: Shape, ts: seq<Tree>)
    requires Chain(s.node, Heads(s.kids)) && Items(s.kids, ts) && Distinct(s)
    requires s.node.kind == ArrayKind && s.str == null == s.node.valuestring && s.name == s.node.name
    ensures Holding(s, Arr(ts))
  {
    hide Item, AllDistinct, AllOwned, Owned, Distinct, After, Chain, Joined, Backed, AllWired, HoldsItems, Heads;
    var ss, ns := s.kids, Heads(s.kids);
    HeldByIndex(ss, ts);
    ChainJoined(s.node, ns);
    Empty(s.node, ns);
    forall i | 0 <= i < |ss| ensures Wired(ss[i]) { ItemWired(ss[i], ts[i]); }
    RowWired(ss);
    if ss != [] { RowBacked(ss, Last(ss)); }
    ArrayMade(s, ts);
  }

  lemma {:induction false} ItemWired(s: Shape, t: Tree)
    requires Item(s, t)
    ensures Wired(s)
  {
  }

  lemma {:induction false} ArrayMade(s: Shape, ts: seq<Tree>)
    requires s.node.child == First(s.kids) && AllWired(s.kids) && HoldsItems(s.kids, ts) && Ring(s.kids)
    requires s.node.kind == ArrayKind && s.str == null == s.node.valuestring && s.name == s.node.name
    ensures Holding(s, Arr(ts))
  {
  }

  lemma ChainJoined(parent: Node, ns: seq<Node>)
    requires Chain(parent, ns)
    ensures Joined(ns) && (ns != [] ==> ns[0].prev == ns[|ns| - 1])
  {
    hide After, PrevOf, Chain;
    forall i | 0 <= i < |ns| ensures ns[i].next == After(ns, i) { Around(parent, ns, i); }
    forall i | 0 < i < |ns| ensures ns[i].prev == ns[i - 1] { Around(parent, ns, i); }
    if ns != [] { Around(parent, ns, 0); }
  }

  /** No sibling is a part of what a sibling holds. */
  lemma {:induction false} KidsApart(ss: seq<Shape>, i: nat)
    requires AllDistinct(ss) && i < |ss|
    ensures Members(Heads(ss)) !! AllOwned(ss[i].kids) && AllOwned(ss[i].kids) + Own(ss[i]) <= AllOwned(ss)
    ensures Members(Heads(ss)) <= AllOwned(ss)
  {
    hide AllDistinct, AllOwned, Owned, Distinct;
    OwnedByAll(ss, i);
    OwnPart(ss[i]);
    HeadsUnique(ss);
    forall j | 0 <= j < |ss| ensures ss[j].node !in AllOwned(ss[i].kids) {
      DistinctPair(ss, i, j);
      OwnParts(ss[i]);
      OwnParts(ss[j]);
    }
  }

  lemma {:induction false} OwnedConcat(a: seq<Shape>, b: seq<Shape>)
    ensures AllOwned(a + b) == AllOwned(a) + AllOwned(b)
    decreases |a|
  {
    if a == [] {
      assert a + b == b;
    } else {
      hide Owned;
      OwnedConcat(a[1..], b);
      assert (a + b)[1..] == a[1..] + b;
    }
  }

  lemma {:induction false} DistinctConcat(a: seq<Shape>, b: seq<Shape>)
    ensures AllDistinct(a + b) <==> AllDistinct(a) && AllDistinct(b) && AllOwned(a) !! AllOwned(b)
    decreases |a|
  {
    if a == [] {
      assert a + b == b;
    } else {
      hide Owned, Distinct;
      DistinctConcat(a[1..], b);
      OwnedConcat(a[1..], b);
      assert (a + b)[1..] == a[1..] + b;
    }
  }

  lemma {:induction false} Single(u: Shape)
    ensures AllOwned([u]) == Owned(u) && (AllDistinct([u]) <==> Distinct(u))
  {
    assert [u][1..] == [];
  }

  lemma {:induction false} DistinctParts(s: Shape)
    ensures Owned(s) == Own(s) + AllOwned(s.kids)
    ensures Distinct(s) <==> (s.str != null ==> s.str != s.name) && Own(s) !! AllOwned(s.kids) && AllDistinct(s.kids)
  {
  }

  /** Siblings `b` between `a` and `c`, and what they and the others own. */
  lemma {:induction false} Between(a: seq<Shape>, b: seq<Shape>, c: seq<Shape>)
    ensures AllOwned(a + b + c) == AllOwned(a) + AllOwned(b) + AllOwned(c)
    ensures AllDistinct(a + b + c) <==>
      && AllDistinct(a) && AllDistinct(b) && AllDistinct(c)
      && AllOwned(a) !! AllOwned(b) && AllOwned(a) !! AllOwned(c) && AllOwned(b) !! AllOwned(c)
  {
    hide AllOwned, AllDistinct;
    OwnedConcat(a + b, c);
    OwnedConcat(a, b);
    DistinctConcat(a + b, c);
    DistinctConcat(a, b);
  }

  ghost function Kids(s: Shape, kids: seq<Shape>): Shape { Shape(s.node, s.str, s.name, kids) }

  /** Swapping the children `b` for `b'` in a tree without repetitions. */
  lemma {:induction false} Swapped(s: Shape, a: seq<Shape>, b: seq<Shape>, c: seq<Shape>, b': seq<Shape>)
    requires s.kids == a + b + c && Distinct(s) && AllDistinct(b') && AllOwned(b') !! Owned(s) - AllOwned(b)
    ensures Distinct(Kids(s, a + b' + c)) && Owned(Kids(s, a + b' + c)) == Owned(s) - AllOwned(b) + AllOwned(b')
    ensures AllDistinct(b) && AllOwned(b) <= Owned(s)
  {
    hide AllOwned, AllDistinct, Distinct, Owned;
    Between(a, b, c);
    Between(a, b', c);
    DistinctParts(s);
    DistinctParts(Kids(s, a + b' + c));
    OwnIs(s, a + b' + c);
  }

  lemma OwnIs(s: Shape, kids: seq<Shape>)
    ensures Own(Kids(s, kids)) == Own(s)
  {
  }

  lemma ItemsConcat(a: seq<Shape>, ta: seq<Tree>, b: seq<Shape>, tb: seq<Tree>)
    requires Items(a, ta) && Items(b, tb)
    ensures Items(a + b, ta + tb)
  {
    hide AllOwned, Owned, Item;
    OwnedConcat(a, b);
    forall i | 0 <= i < |a + b|
      ensures Own((a + b)[i]) <= Owned((a + b)[i]) <= AllOwned(a + b) && Item((a + b)[i], (ta + tb)[i])
    {
      OwnPart((a + b)[i]);
    }
  }

  lemma ItemsSlice(ss: seq<Shape>, ts: seq<Tree>, i: nat, j: nat)
    requires Items(ss, ts) && i <= j <= |ss|
    ensures Items(ss[i..j], ts[i..j])
  {
    hide AllOwned, Owned, Item;
    forall k | 0 <= k < j - i
      ensures Own(ss[i..j][k]) <= Owned(ss[i..j][k]) <= AllOwned(ss[i..j]) && Item(ss[i..j][k], ts[i..j][k])
    {
      OwnedByAll(ss[i..j], k);
      OwnPart(ss[i..j][k]);
    }
  }

  lemma ItemsOne(u: Shape, v: Tree)
    requires Item(u, v)
    ensures Items([u], [v])
  {
    hide AllOwned, Owned, Item;
    Single(u);
    OwnPart(u);
  }

  /** A tree and an item that share nothing. */
  lemma {:induction false} Apart(s: Shape, u: Shape)
    requires Owned(s) !! Owned(u)
    ensures s.node != u.node && u.node !in Heads(s.kids) && u.node in Own(u) && Members(Heads(s.kids)) <= Owned(s)
  {
    hide AllOwned, Owned;
    OwnParts(s);
    OwnParts(u);
    forall i | 0 <= i < |s.kids| ensures s.kids[i].node != u.node && s.kids[i].node in Owned(s) {
      OwnedByAll(s.kids, i);
      OwnParts(s.kids[i]);
    }
  }

  ghost function Spliced(s: Shape, k: nat, m: nat, b: seq<Shape>): Shape
    requires k <= m <= |s.kids|
  {
    Kids(s, s.kids[..k] + b + s.kids[m..])
  }

  /** Once the links follow, children `k` to `m` of an array are replaced by `b`. */
  lemma {:induction false} Remade(s: Shape, ts: seq<Tree>, k: nat, m: nat, b: seq<Shape>, tb: seq<Tree>)
    requires k <= m <= |s.kids| && Items(s.kids, ts) && Items(b, tb) && Distinct(s)
    requires AllDistinct(b) && AllOwned(b) !! Owned(s) - AllOwned(s.kids[k..m])
    requires Chain(s.node, Heads(s.kids)[..k] + Heads(b) + Heads(s.kids)[m..])
    requires s.node.kind == ArrayKind && s.str == null == s.node.valuestring && s.name == s.node.name
    ensures var s' := Spliced(s, k, m, b);
      && Holding(s', Arr(ts[..k] + tb + ts[m..])) && Distinct(s')
      && Owned(s') == Owned(s) - AllOwned(s.kids[k..m]) + AllOwned(b)
  {
    hide Holding, Item, Distinct, AllDistinct, AllOwned, Owned, Chain, Items;
    var a, c := s.kids[..k], s.kids[m..];
    ItemsLength(s.kids, ts);
    assert s.kids == a + s.kids[k..m] + c;
    Swapped(s, a, s.kids[k..m], c, b);
    ItemsSlice(s.kids, ts, 0, k);
    ItemsSlice(s.kids, ts, m, |s.kids|);
    assert s.kids[0..k] == a && ts[0..k] == ts[..k] && s.kids[m..|s.kids|] == c && ts[m..|s.kids|] == ts[m..];
    ItemsConcat(a, ts[..k], b, tb);
    ItemsConcat(a + b, ts[..k] + tb, c, ts[m..]);
    assert Heads(a + b + c) == Heads(s.kids)[..k] + Heads(b) + Heads(s.kids)[m..];
    CloseArray(Spliced(s, k, m, b), ts[..k] + tb + ts[m..]);
  }

  lemma ItemsLength(ss: seq<Shape>, ts: seq<Tree>)
    requires Items(ss, ts)
    ensures |ss| == |ts|
  {
  }

  lemma ArrayFields(s: Shape, ts: seq<Tree>)
    requires Holding(s, Arr(ts))
    ensures s.node.kind == ArrayKind && s.str == null == s.node.valuestring && s.name == s.node.name
  {
  }

  /** Items do not notice changes of links that are no part of them. */
  lemma {:induction false} LinksApart(s: Shape, u: Shape)
    requires Distinct(s) && Distinct(u) && Owned(s) !! Owned(u)
    ensures var links := Members(Heads(s.kids)) + {s.node, u.node};
      && (forall i | 0 <= i < |s.kids| ::
        && links !! AllOwned(s.kids[i].kids) && s.kids[i].node != s.node
        && AllOwned(s.kids[i].kids) + Own(s.kids[i]) <= Owned(s))
      && links !! AllOwned(u.kids) && u.node != s.node
      && AllOwned(u.kids) + Own(u) <= Owned(u)
  {
    hide Distinct, AllDistinct, AllOwned, Owned;
    DistinctParts(s);
    DistinctParts(u);
    OwnParts(s);
    OwnParts(u);
    Apart(s, u);
    forall i | 0 <= i < |s.kids|
      ensures var links := Members(Heads(s.kids)) + {s.node, u.node};
        && links !! AllOwned(s.kids[i].kids) && s.kids[i].node != s.node
        && AllOwned(s.kids[i].kids) + Own(s.kids[i]) <= Owned(s)
    {
      KidsApart(s.kids, i);
      OwnParts(s.kids[i]);
    }
  }

  lemma {:induction false} RemadeInserted(s: Shape, ts: seq<Tree>, k: nat, u: Shape, v: Tree)
    requires k <= |s.kids| && Items(s.kids, ts) && Item(u, v) && Distinct(s) && Distinct(u) && Owned(s) !! Owned(u)
    requires Chain(s.node, Inserted(Heads(s.kids), k, u.node))
    requires s.node.kind == ArrayKind && s.str == null == s.node.valuestring && s.name == s.node.name
    ensures var s' := Spliced(s, k, k, [u]);
      Holding(s', Arr(ts[..k] + [v] + ts[k..])) && Distinct(s') && Owned(s') == Owned(s) + Owned(u)
  {
    hide Holding, Item, Distinct, AllDistinct, AllOwned, Owned, Chain, Items, Spliced;
    var ns := Heads(s.kids);
    ItemsOne(u, v);
    Single(u);
    NoKids();
    assert s.kids[k..k] == [] && ns[..k] + Heads([u]) + ns[k..] == Inserted(ns, k, u.node);
    Remade(s, ts, k, k, [u], [v]);
  }

  lemma RemadeDetached(s: Shape, ts: seq<Tree>, k: nat)
    requires k < |s.kids| && Items(s.kids, ts) && Distinct(s)
    requires Chain(s.node, Heads(s.kids)[..k] + Heads(s.kids)[k + 1..])
    requires s.node.kind == ArrayKind && s.str == null == s.node.valuestring && s.name == s.node.name
    ensures var s' := Spliced(s, k, k + 1, []);
      Holding(s', Arr(ts[..k] + ts[k + 1..])) && Distinct(s') && Owned(s') == Owned(s) - Owned(s.kids[k])
    ensures Owned(s.kids[k]) <= Owned(s) && Distinct(s.kids[k])
  {
    hide Holding, Item, Distinct, AllDistinct, AllOwned, Owned, Chain, Items, Spliced;
    var ns := Heads(s.kids);
    NoKids();
    NoItems();
    Single(s.kids[k]);
    DistinctParts(s);
    OwnedByAll(s.kids, k);
    OwnParts(s);
    DistinctPair(s.kids, k, k);
    ItemsLength(s.kids, ts);
    assert ns[..k] + Heads([]) + ns[k + 1..] == ns[..k] + ns[k + 1..];
    assert s.kids[k..k + 1] == [s.kids[k]] && ts[..k] + [] + ts[k + 1..] == ts[..k] + ts[k + 1..];
    Remade(s, ts, k, k + 1, [], []);
  }

  lemma RemadeReplaced(s: Shape, ts: seq<Tree>, k: nat, u: Shape, v: Tree)
    requires k < |s.kids| && Items(s.kids, ts) && Item(u, v) && Distinct(s) && Distinct(u) && Owned(s) !! Owned(u)
    requires Chain(s.node, Heads(s.kids)[k := u.node])
    requires s.node.kind == ArrayKind && s.str == null == s.node.valuestring && s.name == s.node.name
    ensures |ts| == |s.kids| && var s' := Spliced(s, k, k + 1, [u]);
      Holding(s', Arr(ts[k := v])) && Distinct(s') && Owned(s') == Owned(s) - Owned(s.kids[k]) + Owned(u)
    ensures Owned(s.kids[k]) <= Owned(s) && Distinct(s.kids[k])
  {
    hide Holding, Item, Distinct, AllDistinct, AllOwned, Owned, Chain, Items, Spliced;
    var ns := Heads(s.kids);
    ItemsOne(u, v);
    Single(u);
    Single(s.kids[k]);
    DistinctParts(s);
    OwnedByAll(s.kids, k);
    OwnParts(s);
    DistinctPair(s.kids, k, k);
    ItemsLength(s.kids, ts);
    assert ns[..k] + Heads([u]) + ns[k + 1..] == ns[k := u.node];
    assert s.kids[k..k + 1] == [s.kids[k]] && ts[..k] + [v] + ts[k + 1..] == ts[k := v];
    Remade(s, ts, k, k + 1, [u], [v]);
  }

  /** cJSON_AddItemToArray on an array: the item's value comes last. */
  method AddItem(parent: Node, item: Node, ghost mem: Memory, ghost s: Shape, ghost ts: seq<Tree>, ghost u: Shape,
      ghost v: Tree)
    returns (ok: bool, ghost s': Shape)
    requires parent == s.node && Holding(s, Arr(ts)) && Distinct(s)
    requires item == u.node && Item(u, v) && Distinct(u) && (ts != [] ==> item.next == null)
    requires Owned(s) !! Owned(u) && Owned(s) + Owned(u) <= mem.live
    modifies parent`child, item`next, item`prev, Members(Heads(s.kids))`next, Members(Heads(s.kids))`prev
    ensures ok && s' == Kids(s, s.kids + [u])
    ensures Holding(s', Arr(ts + [v])) && Distinct(s') && Owned(s') == Owned(s) + Owned(u)
  {
    hide Holding, Item, Distinct, AllDistinct, AllOwned, Owned, Chain, Heads, Wired;
    ghost var ss, n := s.kids, |s.kids|;
    OpenArray(s, ts);
    ArrayFields(s, ts);
    Apart(s, u);
    LinksApart(s, u);
    ok := AddItemToArray(parent, item, Heads(ss));
    s' := Kids(s, ss + [u]);
    forall i | 0 <= i < n ensures Item(ss[i], ts[i]) { assert old(Item(ss[i], ts[i])); }
    assert Item(u, v) by { assert old(Item(u, v)); }
    assert ss[..n] + [u] + ss[n..] == ss + [u] && ts[..n] + [v] + ts[n..] == ts + [v];
    RemadeInserted(s, ts, n, u, v);
  }

  /** cJSON_InsertItemInArray on an array. */
  method InsertItem(parent: Node, which: int, item: Node, ghost mem: Memory, ghost s: Shape, ghost ts: seq<Tree>,
      ghost u: Shape, ghost v: Tree)
    returns (ok: bool, ghost s': Shape)
    requires parent == s.node && Holding(s, Arr(ts)) && Distinct(s)
    requires item == u.node && Item(u, v) && Distinct(u)
    requires which >= |ts| > 0 ==> item.next == null
    requires Owned(s) !! Owned(u) && Owned(s) + Owned(u) <= mem.live
    modifies parent`child, item`next, item`prev, Members(Heads(s.kids))`next, Members(Heads(s.kids))`prev
    ensures ok == (which >= 0) && |ts| == |s.kids|
    ensures !ok ==> s' == s && Holding(s, Arr(ts))
    ensures ok ==> var k := if which < |ts| then which else |ts|;
      s' == Spliced(s, k, k, [u]) && Holding(s', Arr(ts[..k] + [v] + ts[k..]))
    ensures ok ==> Distinct(s') && Owned(s') == Owned(s) + Owned(u)
  {
    hide Holding, Item, Distinct, AllDistinct, AllOwned, Owned, Chain, Heads, Wired, Spliced;
    ghost var ss, ns := s.kids, Heads(s.kids);
    OpenArray(s, ts);
    ArrayFields(s, ts);
    Apart(s, u);
    LinksApart(s, u);
    if which < 0 {
      return false, s;
    }
    ok := InsertItemInArray(parent, which, item, ns);
    ghost var k := if which < |ts| then which else |ts|;
    s' := Spliced(s, k, k, [u]);
    forall i | 0 <= i < |ss| ensures Item(ss[i], ts[i]) { assert old(Item(ss[i], ts[i])); }
    assert Item(u, v) by { assert old(Item(u, v)); }
    RemadeInserted(s, ts, k, u, v);
  }

  /** cJSON_DetachItemFromArray on an array: the value leaves it, and the item is free for another list. */
  method DetachItemFromArray(parent: Node, which: int, ghost mem: Memory, ghost s: Shape, ghost ts: seq<Tree>)
    returns (item: Node?, ghost s': Shape)
    requires parent == s.node && Holding(s, Arr(ts)) && Distinct(s) && Owned(s) <= mem.live
    modifies parent`child, Members(Heads(s.kids))`next, Members(Heads(s.kids))`prev
    ensures |ts| == |s.kids| && (item == null <==> which < 0 || which >= |ts|)
    ensures item == null ==> s' == s && Holding(s, Arr(ts))
    ensures item != null ==> var u := s.kids[which];
      && item == u.node && item.next == null && item.prev == null && Item(u, ts[which]) && Distinct(u)
      && s' == Spliced(s, which, which + 1, []) && Holding(s', Arr(ts[..which] + ts[which + 1..])) && Distinct(s')
      && Owned(s') == Owned(s) - Owned(u) && Owned(u) <= Owned(s)
  {
    hide Holding, Item, Distinct, AllDistinct, AllOwned, Owned, Chain, Heads, Wired, Spliced;
    ghost var ss, ns := s.kids, Heads(s.kids);
    OpenArray(s, ts);
    ArrayFields(s, ts);
    OwnParts(s);
    s' := s;
    if which < 0 {
      return null, s;
    }
    item := GetArrayItem(parent, which, ns);
    if item == null {
      return null, s;
    }
    SelfApart(s);
    DetachItemViaPointer(parent, item, ns, which);
    s' := Spliced(s, which, which + 1, []);
    forall i | 0 <= i < |ss| ensures Item(ss[i], ts[i]) { assert old(Item(ss[i], ts[i])); }
    RemadeDetached(s, ts, which);
  }

  /** cJSON_ReplaceItemViaPointer up to the deletion of the old item. */
  method ReplaceItem(parent: Node, item: Node, newitem: Node, ghost mem: Memory, ghost which: nat,
      ghost s: Shape, ghost ts: seq<Tree>, ghost u: Shape, ghost v: Tree)
    returns (ghost s': Shape)
    requires parent == s.node && Holding(s, Arr(ts)) && Distinct(s) && which < |s.kids| == |ts|
    requires item == s.kids[which].node
    requires newitem == u.node && Item(u, v) && Distinct(u)
    requires Owned(s) !! Owned(u) && Owned(s) + Owned(u) <= mem.live
    modifies parent`child, newitem`next, newitem`prev, Members(Heads(s.kids))`next, Members(Heads(s.kids))`prev
    ensures s' == Spliced(s, which, which + 1, [u]) && Holding(s', Arr(ts[which := v])) && Distinct(s')
    ensures Owned(s') == Owned(s) - Owned(s.kids[which]) + Owned(u)
    ensures Wired(s.kids[which]) && Distinct(s.kids[which]) && item.next == null && Owned(s.kids[which]) <= Owned(s)
  {
    hide Holding, Item, Distinct, AllDistinct, AllOwned, Owned, Chain, Heads, Wired, Spliced;
    ghost var ss, ns := s.kids, Heads(s.kids);
    OpenArray(s, ts);
    ArrayFields(s, ts);
    Apart(s, u);
    LinksApart(s, u);
    ReplaceLinks(parent, item, newitem, ns, which);
    forall i | 0 <= i < |ss| ensures Item(ss[i], ts[i]) { assert old(Item(ss[i], ts[i])); }
    assert Item(u, v) by { assert old(Item(u, v)); }
    s' := Spliced(s, which, which + 1, [u]);
    RemadeReplaced(s, ts, which, u, v);
    ItemWired(ss[which], ts[which]);
  }

  /**
   * cJSON_ReplaceItemInArray on an array: the old item is freed with all it holds. An
   * item that stands there already is left alone.
   */
  method ReplaceItemInArray(parent: Node, which: int, newitem: Node, mem: Memory, ghost s: Shape,
      ghost ts: seq<Tree>, ghost u: Shape, ghost v: Tree)
    returns (ok: bool, ghost s': Shape)
    requires parent == s.node && Holding(s, Arr(ts)) && Distinct(s) && newitem == u.node && Owned(s) <= mem.live
    requires (0 <= which < |s.kids| && newitem == s.kids[which].node)
      || (Item(u, v) && Distinct(u) && Owned(s) !! Owned(u) && Owned(u) <= mem.live)
    modifies mem`live, parent`child, newitem`next, newitem`prev, Members(Heads(s.kids))`next,
      Members(Heads(s.kids))`prev
    ensures |ts| == |s.kids| && ok == (0 <= which < |ts|)
    ensures !ok || newitem == s.kids[which].node ==> s' == s && Holding(s, Arr(ts)) && mem.live == old(mem.live)
    ensures ok && newitem != s.kids[which].node ==>
      && s' == Spliced(s, which, which + 1, [u]) && Holding(s', Arr(ts[which := v])) && Distinct(s')
      && Owned(s') == Owned(s) - Owned(s.kids[which]) + Owned(u)
      && mem.live == old(mem.live) - Owned(s.kids[which])
  {
    hide Holding, Distinct, AllDistinct, AllOwned, Owned, Chain, Heads, Item, Items, Wired;
    OpenArray(s, ts);
    OwnParts(s);
    OwnParts(u);
    s' := s;
    if which < 0 {
      return false, s;
    }
    var item := GetArrayItem(parent, which, Heads(s.kids));
    if item == null {
      return false, s;
    }
    if newitem == item {
      return true, s;
    }
    s' := ReplaceItem(parent, item, newitem, mem, which, s, ts, u, v);
    OwnParts(s');
    RowOfOne(s.kids[which]);
    Delete(item, mem, [s.kids[which]]);
    ok := true;
  }

  lemma {:induction false} RowOfOne(s: Shape)
    requires Wired(s) && s.node.next == null && Distinct(s)
    ensures AllWired([s]) && AllDistinct([s]) && First([s]) == s.node && AllOwned([s]) == Owned(s)
  {
    OwnPart(s);
    assert [s][1..] == [];
  }

  lemma {:induction false} SelfApart(s: Shape)
    requires Distinct(s)
    ensures forall i | 0 <= i < |s.kids| ::
      && Members(Heads(s.kids)) + {s.node} !! AllOwned(s.kids[i].kids)
      && s.kids[i].node != s.node && AllOwned(s.kids[i].kids) + Own(s.kids[i]) <= Owned(s)
  {
    hide Distinct, AllDistinct, AllOwned, Owned;
    DistinctParts(s);
    OwnParts(s);
    forall i | 0 <= i < |s.kids|
      ensures Members(Heads(s.kids)) + {s.node} !! AllOwned(s.kids[i].kids) && s.kids[i].node != s.node
      ensures AllOwned(s.kids[i].kids) + Own(s.kids[i]) <= Owned(s)
    {
      KidsApart(s.kids, i);
      OwnParts(s.kids[i]);
    }
  }

  lemma NoItems()
    ensures Items([], []) && AllDistinct([])
  {
  }

  lemma NoKids()
    ensures AllOwned([]) == {}
  {
  }
}
