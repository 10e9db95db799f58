/** cJSON_Compare on nodes. */
module NodeCompare {
  import opened Bytes
  import opened Json
  import opened Heap
  import opened Access
  import opened Compare

  /** How deep a tree nests. */
  function Height(t: Tree): nat {
    match t
    case Arr(items) => 1 + ItemsHeight(items)
    case Obj(ms) => 1 + MembersHeight(ms)
    case _ => 0
  }

  function ItemsHeight(items: seq<Tree>): nat {
    if items == [] then 0 else
      var h, r := Height(items[0]), ItemsHeight(items[1..]);
      if h > r then h else r
  }

  function MembersHeight(ms: seq<Member>): nat {
    if ms == [] then 0 else
      var h, r := Height(ms[0].value), MembersHeight(ms[1..]);
      if h > r then h else r
  }

  /** Every tree has a bound on its nesting. */
  lemma {:induction false} Bounded(t: Tree, d: nat)
    requires Height(t) <= d
    ensures NestsWithin(t, d)
    decreases t
  {
    match t
    case Arr(items) =>
      forall i | 0 <= i < |items| ensures NestsWithin(items[i], d - 1) {
        ItemHeight(items, i);
        Bounded(items[i], d - 1);
      }
    case Obj(ms) =>
      forall i | 0 <= i < |ms| ensures NestsWithin(ms[i].value, d - 1) {
        MemberHeight(ms, i);
        Bounded(ms[i].value, d - 1);
      }
    case _ =>
  }

  lemma {:induction false} ItemHeight(items: seq<Tree>, i: nat)
    requires i < |items|
    ensures Height(items[i]) <= ItemsHeight(items)
    decreases i
  {
    if i > 0 { ItemHeight(items[1..], i - 1); }
  }

  lemma {:induction false} MemberHeight(ms: seq<Member>, i: nat)
    requires i < |ms|
    ensures Height(ms[i].value) <= MembersHeight(ms)
    decreases i
  {
    if i > 0 { MemberHeight(ms[1..], i - 1); }
  }

  /** cJSON_Compare on any two trees. */
  method CompareTrees(a: Node?, b: Node?, cs: bool, ghost mem: Memory,
      ghost s: Shape, ghost t: Tree, ghost u: Shape, ghost v: Tree)
    returns (r: bool)
    requires a != null ==> a == s.node && Holding(s, t) && Owned(s) <= mem.live
    requires b != null ==> b == u.node && Holding(u, v) && Owned(u) <= mem.live
    requires a != null && b != null && a != b ==> Owned(s) !! Owned(u)
    ensures r == (a != null && b != null && (a == b || Same(t, v, cs)))
  {
    hide Holding, Same, NestsWithin, Owned;
    ghost var d := Height(t) + Height(v);
    Bounded(t, d);
    Bounded(v, d);
    r := CompareNodes(a, b, cs, mem, d, s, t, u, v);
  }

  /** The recursion of cJSON_Compare. `d` bounds the nesting of both trees. */
  method CompareNodes(a: Node?, b: Node?, cs: bool, ghost mem: Memory, ghost d: nat,
      ghost s: Shape, ghost t: Tree, ghost u: Shape, ghost v: Tree)
    returns (r: bool)
    requires a != null ==> a == s.node && Holding(s, t) && Owned(s) <= mem.live && NestsWithin(t, d)
    requires b != null ==> b == u.node && Holding(u, v) && Owned(u) <= mem.live && NestsWithin(v, d)
    requires a != null && b != null && a != b ==> Owned(s) !! Owned(u)
    ensures r == (a != null && b != null && (a == b || Same(t, v, cs)))
    decreases d, 2
  {
    if a == null || b == null || a.kind != b.kind || a.kind == Invalid {
      return false;
    }
    if a == b {
      return true;
    }
    match a.kind
    case FalseKind => r := true;
    case TrueKind => r := true;
    case NullKind => r := true;
    case NumberKind => r := Close(a.valuedouble, b.valuedouble);
    case StringKind =>
      r := a.valuestring != null && b.valuestring != null && CString(a.valuestring[..]) == CString(b.valuestring[..]);
    case ArrayKind =>
      r := CompareItems(a, b, cs, mem, d, s, t, u, v);
    case ObjectKind =>
      r := CompareMembers(a, b, cs, mem, d, s, t, u, v);
      if r {
        r := CompareMembers(b, a, cs, mem, d, u, v, s, t);
      }
      ObjectsSame(t, v, cs);
    case Invalid => r := false;
  }

  lemma {:induction false} ObjectsSame(t: Tree, v: Tree, cs: bool)
    requires t.Obj? && v.Obj?
    ensures Same(t, v, cs) <==>
      && (forall i | 0 <= i < |t.members| :: HasPartner(t.members, i, v.members, cs))
      && forall j | 0 <= j < |v.members| :: HasPartner(v.members, j, t.members, cs)
  {
    hide Same, IsPartner, HasPartner;
    var xs, ys := t.members, v.members;
    SameMembers(xs, ys, cs);
    assert t == Obj(xs) && v == Obj(ys);
    if Same(t, v, cs) {
      forall j | 0 <= j < |ys| ensures HasPartner(ys, j, xs, cs) {
        assert IsPartner(xs, ys, j, cs);
        Turned(xs, ys, j, cs);
      }
    }
    if forall j | 0 <= j < |ys| :: HasPartner(ys, j, xs, cs) {
      forall j | 0 <= j < |ys| ensures IsPartner(xs, ys, j, cs) {
        assert HasPartner(ys, j, xs, cs);
        Turned(xs, ys, j, cs);
      }
    }
  }

  lemma Turned(xs: seq<Member>, ys: seq<Member>, j: nat, cs: bool)
    requires j < |ys|
    ensures IsPartner(xs, ys, j, cs) == HasPartner(ys, j, xs, cs)
  {
    var i := Find(xs, ys[j].key, cs);
    if i < |xs| { Symmetric(xs[i].value, ys[j].value, cs); }
  }

  lemma {:induction false} KidsOwned(s: Shape)
    ensures AllOwned(s.kids) <= Owned(s)
  {
  }

  /** The loop over two arrays. */
  method CompareItems(a: Node, b: Node, cs: bool, ghost mem: Memory, ghost d: nat,
      ghost s: Shape, ghost t: Tree, ghost u: Shape, ghost v: Tree)
    returns (r: bool)
    requires t.Arr? && a == s.node && Holding(s, t) && Owned(s) <= mem.live && NestsWithin(t, d)
    requires v.Arr? && b == u.node && Holding(u, v) && Owned(u) <= mem.live && NestsWithin(v, d)
    requires Owned(s) !! Owned(u)
    ensures r == Same(t, v, cs)
    decreases d, 1
  {
    hide AllWired, HoldsItems, AllOwned, Owned, Same, Holding;
    ghost var ss, us, i := s.kids, u.kids, 0;
    ArrayRow(s, t);
    ArrayRow(u, v);
    var aElement, bElement := a.child, b.child;
    KidsOwned(s);
    KidsOwned(u);
    SameItems(t, v, cs);
    RowEnds(ss, t.items);
    RowEnds(us, v.items);
    while aElement != null && bElement != null
      invariant 0 <= i <= |t.items| && i <= |v.items|
      invariant aElement == First(ss) && AllWired(ss) && HoldsItems(ss, t.items[i..]) && AllOwned(ss) <= Owned(s)
      invariant bElement == First(us) && AllWired(us) && HoldsItems(us, v.items[i..]) && AllOwned(us) <= Owned(u)
      invariant forall k | 0 <= k < i :: Same(t.items[k], v.items[k], cs)
      decreases |t.items| - i
    {
      RowEnds(ss, t.items[i..]);
      RowEnds(us, v.items[i..]);
      var same := CompareItem(aElement, bElement, cs, mem, d - 1, ss, t.items[i..], us, v.items[i..]);
      if !same {
        return false;
      }
      aElement, bElement := aElement.next, bElement.next;
      assert t.items[i..][1..] == t.items[i + 1..] && v.items[i..][1..] == v.items[i + 1..];
      ss, us, i := ss[1..], us[1..], i + 1;
    }
    RowEnds(ss, t.items[i..]);
    RowEnds(us, v.items[i..]);
    r := aElement == bElement;
    if ss != [] { ItemRow(ss, t.items[i..]); }
    if us != [] { ItemRow(us, v.items[i..]); }
  }

  /** One round of that loop. */
  method CompareItem(aElement: Node, bElement: Node, cs: bool, ghost mem: Memory, ghost d: nat,
      ghost ss: seq<Shape>, ghost xs: seq<Tree>, ghost us: seq<Shape>, ghost ys: seq<Tree>)
    returns (same: bool)
    requires ss != [] && aElement == First(ss) && AllWired(ss) && HoldsItems(ss, xs) && AllOwned(ss) <= mem.live
    requires us != [] && bElement == First(us) && AllWired(us) && HoldsItems(us, ys) && AllOwned(us) <= mem.live
    requires AllOwned(ss) !! AllOwned(us)
    requires xs != [] && ys != [] && NestsWithin(xs[0], d) && NestsWithin(ys[0], d)
    ensures same == Same(xs[0], ys[0], cs)
    ensures aElement.next == First(ss[1..]) && AllWired(ss[1..]) && HoldsItems(ss[1..], xs[1..])
    ensures bElement.next == First(us[1..]) && AllWired(us[1..]) && HoldsItems(us[1..], ys[1..])
    ensures AllOwned(ss[1..]) <= AllOwned(ss) && AllOwned(us[1..]) <= AllOwned(us)
    decreases d, 3
  {
    hide AllWired, HoldsItems, AllOwned, Owned, Same, Holding;
    ItemRow(ss, xs);
    ItemRow(us, ys);
    same := CompareNodes(aElement, bElement, cs, mem, d, ss[0], xs[0], us[0], ys[0]);
  }

  lemma ArrayRow(s: Shape, t: Tree)
    requires t.Arr? && Holding(s, t)
    ensures s.node.child == First(s.kids) && AllWired(s.kids) && HoldsItems(s.kids, t.items)
  {
  }

  lemma {:induction false} RowEnds(ss: seq<Shape>, ts: seq<Tree>)
    requires HoldsItems(ss, ts)
    ensures |ss| == |ts| && (First(ss) == null <==> ss == []) && (ss != [] ==> First(ss) == ss[0].node)
  {
  }

  lemma {:induction false} SameItems(t: Tree, v: Tree, cs: bool)
    requires t.Arr? && v.Arr?
    ensures Same(t, v, cs) <==>
      |t.items| == |v.items| && forall i | 0 <= i < |t.items| :: Same(t.items[i], v.items[i], cs)
  {
  }

  /** One of the two loops over objects: each member of `a` against what its key finds in `b`. */
  method CompareMembers(a: Node, b: Node, cs: bool, ghost mem: Memory, ghost d: nat,
      ghost s: Shape, ghost t: Tree, ghost u: Shape, ghost v: Tree)
    returns (r: bool)
    requires t.Obj? && a == s.node && Holding(s, t) && Owned(s) <= mem.live && NestsWithin(t, d)
    requires v.Obj? && b == u.node && Holding(u, v) && Owned(u) <= mem.live && NestsWithin(v, d)
    requires Owned(s) !! Owned(u)
    ensures r == forall i | 0 <= i < |t.members| :: HasPartner(t.members, i, v.members, cs)
    decreases d, 1
  {
    hide AllWired, HoldsMembers, AllOwned, Owned, HasPartner, Holding, Find;
    var element := a.child;
    ghost var ss, xs, n := s.kids, t.members, |t.members|;
    KidsOwned(s);
    ObjectRow(s, t);
    while element != null
      invariant element == First(ss) && AllWired(ss) && HoldsMembers(ss, xs) && AllOwned(ss) <= Owned(s)
      invariant Holding(u, v) && |ss| == |xs| <= n && xs == t.members[n - |xs|..]
      invariant forall i | 0 <= i < n - |xs| :: HasPartner(t.members, i, v.members, cs)
      decreases |xs|
    {
      ghost var i := n - |xs|;
      assert xs[0] == t.members[i];
      MemberTail(ss);
      var same := CompareMember(element, b, cs, mem, d - 1, ss, xs, u, v, t.members, i);
      if !same {
        return false;
      }
      element := element.next;
      ss, xs := ss[1..], xs[1..];
    }
    r := true;
  }

  lemma ObjectRow(s: Shape, t: Tree)
    requires t.Obj? && Holding(s, t)
    ensures s.node.child == First(s.kids) && AllWired(s.kids) && HoldsMembers(s.kids, t.members)
    ensures |s.kids| == |t.members|
  {
  }

  /** One round of that loop. */
  method CompareMember(element: Node, b: Node, cs: bool, ghost mem: Memory, ghost d: nat,
      ghost ss: seq<Shape>, ghost xs: seq<Member>, ghost u: Shape, ghost v: Tree, ghost all: seq<Member>, ghost i: nat)
    returns (same: bool)
    requires ss != [] && element == ss[0].node && AllWired(ss) && HoldsMembers(ss, xs) && AllOwned(ss) <= mem.live
    requires |xs| == |ss| && NestsWithin(xs[0].value, d) && i < |all| && all[i] == xs[0]
    requires v.Obj? && b == u.node && Holding(u, v) && Owned(u) <= mem.live && NestsWithin(v, d + 1)
    requires AllOwned(ss) !! Owned(u)
    ensures same == HasPartner(all, i, v.members, cs)
    ensures AllWired(ss[1..]) && HoldsMembers(ss[1..], xs[1..]) && element.next == First(ss[1..])
    ensures Holding(u, v)
    decreases d, 3
  {
    hide AllWired, HoldsMembers, AllOwned, Owned, Same, CString, Folded, Find, Holding;
    MemberRow(ss, xs);
    MemberTail(ss);
    OwnParts(u);
    assert CString(element.name[..]) == xs[0].key;
    var partner;
    ghost var j;
    partner, j := GetObjectItem(b, CString(element.name[..]), cs, u, v);
    if partner == null {
      return false;
    }
    OwnedByAll(u.kids, j);
    PartnerApart(u, j);
    same := CompareNodes(element, partner, cs, mem, d, ss[0], xs[0].value, u.kids[j], v.members[j].value);
  }

  lemma PartnerApart(u: Shape, j: nat)
    requires j < |u.kids|
    ensures u.kids[j].node in Owned(u.kids[j])
  {
  }

  lemma {:induction false} MemberTail(ss: seq<Shape>)
    requires ss != []
    ensures AllOwned(ss[1..]) <= AllOwned(ss) && ss[0].node in Owned(ss[0]) && First(ss) == ss[0].node
    ensures {ss[0].node} + Block(ss[0].str) + Block(ss[0].name) + AllOwned(ss[0].kids) <= AllOwned(ss)
  {
    OwnParts(ss[0]);
  }
}
