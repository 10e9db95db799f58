/** Looking up the members of an object. */
module Access {
  import opened Bytes
  import opened Json
  import opened Heap

  /** tolower in the C locale. */
  function Lower(b: byte): byte { if UPPER_A <= b <= 90 then b + 32 else b }

  /** What a lookup compares of a key. */
  function Folded(key: Text, caseSensitive: bool): (f: Text)
    ensures |f| == |key|
  {
    if caseSensitive then key else seq(|key|, i requires 0 <= i < |key| => Lower(key[i]))
  }

  /** The first member with the key; the number of members if there is none. */
  function Find(ms: seq<Member>, key: Text, caseSensitive: bool): (i: nat)
    ensures i <= |ms| && (i < |ms| ==> Folded(ms[i].key, caseSensitive) == Folded(key, caseSensitive))
    ensures forall k | 0 <= k < i :: Folded(ms[k].key, caseSensitive) != Folded(key, caseSensitive)
  {
    if ms == [] || Folded(ms[0].key, caseSensitive) == Folded(key, caseSensitive) then 0
    else 1 + Find(ms[1..], key, caseSensitive)
  }

  lemma {:induction false} FindIs(ms: seq<Member>, i: nat, key: Text, caseSensitive: bool)
    requires i <= |ms| && (i < |ms| ==> Folded(ms[i].key, caseSensitive) == Folded(key, caseSensitive))
    requires forall k | 0 <= k < i :: Folded(ms[k].key, caseSensitive) != Folded(key, caseSensitive)
    ensures Find(ms, key, caseSensitive) == i
  {
  }

  /** `a` and `b` are the upper-case and the lower-case form of a letter. */
  predicate Cases(a: byte, b: byte, i: nat)
    requires i < 26
  {
    a as char == "ABCDEFGHIJKLMNOPQRSTUVWXYZ"[i] && b as char == "abcdefghijklmnopqrstuvwxyz"[i]
  }

  predicate SameLetter(a: byte, b: byte) { a == b || exists i | 0 <= i < 26 :: Cases(a, b, i) || Cases(b, a, i) }

  predicate SameKey(a: Text, b: Text) { |a| == |b| && forall i :: 0 <= i < |a| ==> SameLetter(a[i], b[i]) }

  lemma UpperAt(i: nat)
    requires i < 26
    ensures "ABCDEFGHIJKLMNOPQRSTUVWXYZ"[i] as int == 65 + i
  {
  }

  lemma LowerAt(i: nat)
    requires i < 26
    ensures "abcdefghijklmnopqrstuvwxyz"[i] as int == 97 + i
  {
  }

  lemma CasesAt(a: byte, b: byte, i: nat)
    requires i < 26
    ensures Cases(a, b, i) <==> a == 65 + i && b == 97 + i
  {
    UpperAt(i);
    LowerAt(i);
  }

  lemma LowerSame(a: byte, b: byte)
    ensures Lower(a) == Lower(b) <==> SameLetter(a, b)
  {
    hide Cases;
    forall i, x: byte, y: byte | 0 <= i < 26 ensures Cases(x, y, i) <==> x == 65 + i && y == 97 + i {
      CasesAt(x, y, i);
    }
    if 65 <= a <= 90 && b == a + 32 { assert Cases(a, b, a - 65); }
    if 65 <= b <= 90 && a == b + 32 { assert Cases(b, a, b - 65); }
  }

  /** Without regard to case, keys count as one exactly when they have the same letters. */
  lemma FoldedSame(a: Text, b: Text)
    ensures Folded(a, false) == Folded(b, false) <==> SameKey(a, b)
  {
    hide SameLetter, Lower;
    var f, g := Folded(a, false), Folded(b, false);
    if |a| == |b| {
      forall i | 0 <= i < |a| ensures f[i] == g[i] <==> SameLetter(a[i], b[i]) { LowerSame(a[i], b[i]); }
    }
  }

  /** What a lookup finds: the first member with the key, whose letters may differ in case if case does not matter. */
  lemma {:induction false} FindSame(ms: seq<Member>, key: Text, caseSensitive: bool)
    ensures var i := Find(ms, key, caseSensitive);
      && (i < |ms| ==> if caseSensitive then ms[i].key == key else SameKey(ms[i].key, key))
      && forall k | 0 <= k < i :: if caseSensitive then ms[k].key != key else !SameKey(ms[k].key, key)
  {
    hide SameKey;
    var i := Find(ms, key, caseSensitive);
    if !caseSensitive {
      hide Folded, Find;
      forall k | 0 <= k < |ms| ensures Folded(ms[k].key, false) == Folded(key, false) <==> SameKey(ms[k].key, key) {
        FoldedSame(ms[k].key, key);
      }
    }
  }

  /** get_object_item on an object. */
  method GetObjectItem(container: Node, name: Text, caseSensitive: bool, ghost s: Shape, ghost t: Tree)
    returns (item: Node?, ghost i: nat)
    requires container == s.node && Holding(s, t) && t.Obj?
    ensures |s.kids| == |t.members| && i == Find(t.members, name, caseSensitive)
    ensures var k := Find(t.members, name, caseSensitive);
      if k < |t.members| then item == s.kids[k].node && Holding(s.kids[k], t.members[k].value) else item == null
  {
    hide AllWired, HoldsMembers, CString, AllOwned, Owned, Folded;
    var current := container.child;
    ghost var ss, ms := s.kids, t.members;
    i := 0;
    RowLengths(ss, ms);
    while current != null
      invariant i <= |t.members| == |s.kids| && ss == s.kids[i..] && ms == t.members[i..]
      invariant current == First(ss) && AllWired(ss) && HoldsMembers(ss, ms)
      invariant forall k | 0 <= k < i :: Folded(t.members[k].key, caseSensitive) != Folded(name, caseSensitive)
      decreases |ss|
    {
      MemberRow(ss, ms);
      if Folded(CString(current.name[..]), caseSensitive) == Folded(name, caseSensitive) {
        FindIs(t.members, i, name, caseSensitive);
        return current, i;
      }
      current := current.next;
      ss, ms := ss[1..], ms[1..];
      i := i + 1;
    }
    FindIs(t.members, i, name, caseSensitive);
    item := null;
  }

  lemma {:induction false} RowLengths(ss: seq<Shape>, ms: seq<Member>)
    requires HoldsMembers(ss, ms)
    ensures |ss| == |ms|
  {
  }

  /** cJSON_GetObjectItemCaseSensitive */
  method GetObjectItemCaseSensitive(container: Node, name: Text, ghost s: Shape, ghost t: Tree)
    returns (item: Node?, ghost i: nat)
    requires container == s.node && Holding(s, t) && t.Obj?
    ensures |s.kids| == |t.members| && i == Find(t.members, name, true)
    ensures var k := Find(t.members, name, true);
      if k < |t.members| then item == s.kids[k].node && Holding(s.kids[k], t.members[k].value) else item == null
  {
    item, i := GetObjectItem(container, name, true, s, t);
  }
}
