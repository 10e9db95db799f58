/** cJSON_Compare, as a relation on values. */
module Compare {
  import opened Bytes
  import opened Json
  import opened Access

  /** DBL_EPSILON */
  const EPSILON: real := 1.0 / 4503599627370496.0

  function Abs(x: real): real { if x < 0.0 then -x else x }

  /** compare_double */
  predicate Close(x: real, y: real) {
    Abs(x - y) <= (if Abs(x) > Abs(y) then Abs(x) else Abs(y)) * EPSILON
  }

  /** Values that cJSON_Compare finds equal in trees that share no nodes. */
  predicate Same(a: Tree, b: Tree, cs: bool)
    decreases a
  {
    match (a, b)
    case (Null, Null) => true
    case (Bool(x), Bool(y)) => x == y
    case (Num(x), Num(y)) => Close(x, y)
    case (Str(x), Str(y)) => x == y
    case (Arr(xs), Arr(ys)) => |xs| == |ys| && forall i | 0 <= i < |xs| :: Same(xs[i], ys[i], cs)
    case (Obj(xs), Obj(ys)) =>
      && (forall i | 0 <= i < |xs| ::
        var j := Find(ys, xs[i].key, cs); j < |ys| && Same(xs[i].value, ys[j].value, cs))
      && (forall j | 0 <= j < |ys| ::
        var i := Find(xs, ys[j].key, cs); i < |xs| && Same(xs[i].value, ys[j].value, cs))
    case _ => false
  }

  /** Member `i` of `xs` compares equal to the member of `ys` that its key finds. */
  predicate HasPartner(xs: seq<Member>, i: nat, ys: seq<Member>, cs: bool)
    requires i < |xs|
  {
    var j := Find(ys, xs[i].key, cs); j < |ys| && Same(xs[i].value, ys[j].value, cs)
  }

  /** Member `j` of `ys` compares equal to the member of `xs` that its key finds. */
  predicate IsPartner(xs: seq<Member>, ys: seq<Member>, j: nat, cs: bool)
    requires j < |ys|
  {
    var i := Find(xs, ys[j].key, cs); i < |xs| && Same(xs[i].value, ys[j].value, cs)
  }

  lemma {:induction false} SameMembers(xs: seq<Member>, ys: seq<Member>, cs: bool)
    ensures Same(Obj(xs), Obj(ys), cs) <==>
      && (forall i | 0 <= i < |xs| :: HasPartner(xs, i, ys, cs))
      && forall j | 0 <= j < |ys| :: IsPartner(xs, ys, j, cs)
  {
    hide Find, Folded, Close, Same;
    if Same(Obj(xs), Obj(ys), cs) {
      PartnersOfSame(xs, ys, cs);
    }
    if (forall i | 0 <= i < |xs| :: HasPartner(xs, i, ys, cs)) && forall j | 0 <= j < |ys| :: IsPartner(xs, ys, j, cs) {
      SameOfPartners(xs, ys, cs);
    }
  }

  lemma {:induction false} PartnersOfSame(xs: seq<Member>, ys: seq<Member>, cs: bool)
    requires Same(Obj(xs), Obj(ys), cs)
    ensures forall i | 0 <= i < |xs| :: HasPartner(xs, i, ys, cs)
    ensures forall j | 0 <= j < |ys| :: IsPartner(xs, ys, j, cs)
  {
    hide Find, Folded, Close;
    forall i | 0 <= i < |xs| ensures HasPartner(xs, i, ys, cs) { var k := xs[i].key; }
    forall j | 0 <= j < |ys| ensures IsPartner(xs, ys, j, cs) { var k := ys[j].key; }
  }

  lemma {:induction false} SameOfPartners(xs: seq<Member>, ys: seq<Member>, cs: bool)
    requires forall i | 0 <= i < |xs| :: HasPartner(xs, i, ys, cs)
    requires forall j | 0 <= j < |ys| :: IsPartner(xs, ys, j, cs)
    ensures Same(Obj(xs), Obj(ys), cs)
  {
    hide Find, Folded, Close;
    forall i | 0 <= i < |xs|
      ensures var j := Find(ys, xs[i].key, cs); j < |ys| && Same(xs[i].value, ys[j].value, cs)
    {
      assert HasPartner(xs, i, ys, cs);
    }
    forall j | 0 <= j < |ys|
      ensures var i := Find(xs, ys[j].key, cs); i < |xs| && Same(xs[i].value, ys[j].value, cs)
    {
      assert IsPartner(xs, ys, j, cs);
    }
  }

  lemma {:induction false} Symmetric(a: Tree, b: Tree, cs: bool)
    ensures Same(a, b, cs) == Same(b, a, cs)
    decreases a
  {
    match (a, b)
    case (Arr(xs), Arr(ys)) =>
      if |xs| == |ys| {
        forall i | 0 <= i < |xs|
          ensures Same(xs[i], ys[i], cs) == Same(ys[i], xs[i], cs)
        {
          Symmetric(xs[i], ys[i], cs);
        }
      }
    case (Obj(xs), Obj(ys)) =>
      SameMembers(xs, ys, cs);
      SameMembers(ys, xs, cs);
      hide Same;
      forall i | 0 <= i < |xs| ensures HasPartner(xs, i, ys, cs) == IsPartner(ys, xs, i, cs) {
        var j := Find(ys, xs[i].key, cs);
        if j < |ys| { Symmetric(xs[i].value, ys[j].value, cs); }
      }
      forall j | 0 <= j < |ys| ensures IsPartner(xs, ys, j, cs) == HasPartner(ys, j, xs, cs) {
        var i := Find(xs, ys[j].key, cs);
        if i < |xs| { Symmetric(xs[i].value, ys[j].value, cs); }
      }
    case _ =>
  }

  /** On whole numbers the tolerance is equality. */
  lemma CloseIsEqual(x: real, y: real)
    requires IsWhole(x) && IsWhole(y)
    ensures Close(x, y) <==> x == y
  {
    var a, b := x.Floor, y.Floor;
    Magnitude(a);
    Magnitude(b);
    ToleranceBelowOne(Abs(x));
    ToleranceBelowOne(Abs(y));
    if a != b {
      IntegersApart(a, b);
    } else {
      assert Abs(x - y) == 0.0;
    }
  }

  lemma Magnitude(a: int)
    requires -1_000_000_000_000_000 < a < 1_000_000_000_000_000
    ensures 0.0 <= Abs(a as real) < 1_000_000_000_000_000.0
  {
  }

  lemma IntegersApart(a: int, b: int)
    requires a != b
    ensures Abs(a as real - b as real) >= 1.0
  {
    assert a as real - b as real == (a - b) as real;
  }

  lemma ToleranceBelowOne(m: real)
    requires 0.0 <= m < 1_000_000_000_000_000.0
    ensures 0.0 <= m * EPSILON < 1.0
  {
  }

  lemma {:induction false} Transitive(a: Tree, b: Tree, c: Tree, cs: bool)
    requires Whole(a) && Whole(b) && Whole(c)
    requires Same(a, b, cs) && Same(b, c, cs)
    ensures Same(a, c, cs)
    decreases a
  {
    match (a, b, c)
    case (Num(x), Num(y), Num(z)) =>
      CloseIsEqual(x, y);
      CloseIsEqual(y, z);
    case (Arr(xs), Arr(ys), Arr(zs)) =>
      forall i | 0 <= i < |xs| ensures Same(xs[i], zs[i], cs) { Transitive(xs[i], ys[i], zs[i], cs); }
    case (Obj(xs), Obj(ys), Obj(zs)) =>
      hide Same;
      ObjectsTransitive(xs, ys, zs, cs);
    case _ =>
  }

  lemma {:induction false} ObjectsTransitive(xs: seq<Member>, ys: seq<Member>, zs: seq<Member>, cs: bool)
    requires Whole(Obj(xs)) && Whole(Obj(ys)) && Whole(Obj(zs))
    requires Same(Obj(xs), Obj(ys), cs) && Same(Obj(ys), Obj(zs), cs)
    ensures Same(Obj(xs), Obj(zs), cs)
    decreases xs
  {
    SameMembers(xs, ys, cs);
    SameMembers(ys, zs, cs);
    SameMembers(xs, zs, cs);
    hide Same;
    forall i | 0 <= i < |xs| ensures HasPartner(xs, i, zs, cs) {
      assert HasPartner(xs, i, ys, cs);
      var j := Find(ys, xs[i].key, cs);
      assert HasPartner(ys, j, zs, cs);
      FindFolded(zs, xs[i].key, ys[j].key, cs);
      Transitive(xs[i].value, ys[j].value, zs[Find(zs, ys[j].key, cs)].value, cs);
    }
    forall k | 0 <= k < |zs| ensures IsPartner(xs, zs, k, cs) {
      assert IsPartner(ys, zs, k, cs);
      var j := Find(ys, zs[k].key, cs);
      assert IsPartner(xs, ys, j, cs);
      FindFolded(xs, zs[k].key, ys[j].key, cs);
      Transitive(xs[Find(xs, ys[j].key, cs)].value, ys[j].value, zs[k].value, cs);
    }
  }

  /** Keys that count as the same find the same member. */
  lemma {:induction false} FindFolded(ms: seq<Member>, k: Text, k': Text, cs: bool)
    requires Folded(k, cs) == Folded(k', cs)
    ensures Find(ms, k, cs) == Find(ms, k', cs)
  {
    FindIs(ms, Find(ms, k, cs), k', cs);
  }

  // ---- When a tree equals its copy.

  /** In every object the members with one key have one value. */
  predicate Consistent(t: Tree, cs: bool) {
    match t
    case Arr(items) => forall i | 0 <= i < |items| :: Consistent(items[i], cs)
    case Obj(ms) => OneValueEach(ms, cs) && forall i | 0 <= i < |ms| :: Consistent(ms[i].value, cs)
    case _ => true
  }

  predicate OneValueEach(ms: seq<Member>, cs: bool) {
    forall i, j | 0 <= i < |ms| && 0 <= j < |ms| ::
      Folded(ms[i].key, cs) == Folded(ms[j].key, cs) ==> Same(ms[i].value, ms[j].value, cs)
  }

  /** A tree compares equal to its copy exactly when it is consistent. */
  lemma {:induction false} CopyIsSame(t: Tree, cs: bool)
    requires Whole(t)
    ensures Same(t, t, cs) <==> Consistent(t, cs)
    decreases t
  {
    match t
    case Num(v) => CloseIsEqual(v, v);
    case Arr(items) =>
      forall i | 0 <= i < |items| ensures Same(items[i], items[i], cs) <==> Consistent(items[i], cs) {
        CopyIsSame(items[i], cs);
      }
    case Obj(ms) =>
      hide Same;
      forall i | 0 <= i < |ms| ensures Same(ms[i].value, ms[i].value, cs) <==> Consistent(ms[i].value, cs) {
        CopyIsSame(ms[i].value, cs);
      }
      CopyOfMembers(ms, cs);
    case _ =>
  }

  lemma {:induction false} CopyOfMembers(ms: seq<Member>, cs: bool)
    requires Whole(Obj(ms))
    ensures Same(Obj(ms), Obj(ms), cs) <==>
      OneValueEach(ms, cs) && forall i | 0 <= i < |ms| :: Same(ms[i].value, ms[i].value, cs)
  {
    hide Same, Folded, Find;
    SameMembers(ms, ms, cs);
    if Same(Obj(ms), Obj(ms), cs) {
      forall i, j | 0 <= i < |ms| && 0 <= j < |ms| && Folded(ms[i].key, cs) == Folded(ms[j].key, cs)
        ensures Same(ms[i].value, ms[j].value, cs)
      {
        assert HasPartner(ms, i, ms, cs) && HasPartner(ms, j, ms, cs);
        FindFolded(ms, ms[i].key, ms[j].key, cs);
        var k := Find(ms, ms[i].key, cs);
        Symmetric(ms[j].value, ms[k].value, cs);
        Transitive(ms[i].value, ms[k].value, ms[j].value, cs);
      }
    } else if OneValueEach(ms, cs) {
      forall i | 0 <= i < |ms| ensures HasPartner(ms, i, ms, cs) && IsPartner(ms, ms, i, cs) {
        FindsSelf(ms, i, cs);
      }
    }
  }

  lemma {:induction false} FindsSelf(ms: seq<Member>, i: nat, cs: bool)
    requires i < |ms|
    ensures Find(ms, ms[i].key, cs) <= i
  {
  }

  /** The keys of every object are distinct in the key mode. */
  predicate DistinctKeys(t: Tree, cs: bool) {
    match t
    case Arr(items) => forall i | 0 <= i < |items| :: DistinctKeys(items[i], cs)
    case Obj(ms) =>
      && (forall i, j | 0 <= i < j < |ms| :: Folded(ms[i].key, cs) != Folded(ms[j].key, cs))
      && forall i | 0 <= i < |ms| :: DistinctKeys(ms[i].value, cs)
    case _ => true
  }

  lemma {:induction false} DistinctConsistent(t: Tree, cs: bool)
    requires Whole(t) && DistinctKeys(t, cs)
    ensures Consistent(t, cs)
    decreases t
  {
    match t
    case Arr(items) =>
      forall i | 0 <= i < |items|
        ensures Consistent(items[i], cs)
      {
        DistinctConsistent(items[i], cs);
      }
    case Obj(ms) =>
      hide Same, Folded;
      forall i | 0 <= i < |ms| ensures Consistent(ms[i].value, cs) && Same(ms[i].value, ms[i].value, cs) {
        DistinctConsistent(ms[i].value, cs);
        CopyIsSame(ms[i].value, cs);
      }
    case _ =>
  }

  /** With repeated keys a tree need not equal its copy: lookups see only the first of them. */
  lemma RepeatedKeyDiffers()
    ensures var t := Obj([Member([LOWER_A], Null), Member([UPPER_A], Bool(true))]);
      Same(t, t, true) && !Same(t, t, false)
  {
    hide Same, Find, Consistent, Folded;
    var ms := [Member([LOWER_A], Null), Member([UPPER_A], Tree.Bool(true))];
    CopyIsSame(Obj(ms), true);
    CopyOfMembers(ms, false);
    FoldedLetters();
    TwoKeys(ms[0], ms[1]);
    DiffersFromBool(Null, true, false);
    assert ms[0].value == Null && ms[1].value == Tree.Bool(true);
    assert Folded(ms[0].key, false) == Folded(ms[1].key, false);
  }

  lemma FoldedLetters()
    ensures Folded([LOWER_A], true) != Folded([UPPER_A], true)
    ensures Folded([LOWER_A], false) == Folded([UPPER_A], false)
  {
    assert Lower(UPPER_A) == Lower(LOWER_A) == LOWER_A;
  }

  lemma TwoKeys(m: Member, n: Member)
    requires Whole(m.value) && Whole(n.value) && !m.value.Arr? && !m.value.Obj? && !n.value.Arr? && !n.value.Obj?
    requires Folded(m.key, true) != Folded(n.key, true)
    ensures Consistent(Obj([m, n]), true)
  {
    hide Folded;
    DistinctConsistent(Obj([m, n]), true);
  }

  lemma {:induction false} DiffersFromBool(t: Tree, b: bool, cs: bool)
    requires !t.Bool?
    ensures !Same(t, Tree.Bool(b), cs)
  {
  }

  // ---- Comparison is equality of values whose objects are finite maps.

  datatype Value =
    | VNull
    | VBool(b: bool)
    | VNum(v: real)
    | VStr(s: Text)
    | VArr(items: seq<Value>)
    | VObj(members: map<Text, Value>)

  /** What a tree stands for in a key mode. */
  function Content(t: Tree, cs: bool): Value {
    match t
    case Null => VNull
    case Bool(b) => VBool(b)
    case Num(v) => VNum(v)
    case Str(s) => VStr(s)
    case Arr(items) => VArr(seq(|items|, i requires 0 <= i < |items| => Content(items[i], cs)))
    case Obj(ms) => VObj(ContentMap(ms, cs))
  }

  function ContentMap(ms: seq<Member>, cs: bool): map<Text, Value> {
    if ms == [] then map[] else ContentMap(ms[1..], cs)[Folded(ms[0].key, cs) := Content(ms[0].value, cs)]
  }

  lemma {:induction false} MapFinds(ms: seq<Member>, key: Text, cs: bool)
    ensures var i, m := Find(ms, key, cs), ContentMap(ms, cs);
      && (Folded(key, cs) in m <==> i < |ms|)
      && (i < |ms| ==> m[Folded(key, cs)] == Content(ms[i].value, cs))
    decreases |ms|
  {
    hide Content, Folded;
    if ms != [] { MapFinds(ms[1..], key, cs); }
  }

  lemma MapKeys(ms: seq<Member>, key: Text, cs: bool) returns (i: nat)
    requires key in ContentMap(ms, cs)
    ensures i < |ms| && Folded(ms[i].key, cs) == key
  {
    hide Content, Folded;
    if Folded(ms[0].key, cs) == key {
      i := 0;
    } else {
      i := MapKeys(ms[1..], key, cs);
      i := i + 1;
    }
  }

  /** Two trees compare equal exactly when both are consistent and stand for the same value. */
  lemma {:induction false} SameIsEqual(a: Tree, b: Tree, cs: bool)
    requires Whole(a) && Whole(b)
    ensures Same(a, b, cs) <==> Consistent(a, cs) && Consistent(b, cs) && Content(a, cs) == Content(b, cs)
  {
    hide Same, Consistent, Content;
    if Same(a, b, cs) {
      Symmetric(a, b, cs);
      Transitive(a, b, a, cs);
      Transitive(b, a, b, cs);
      CopyIsSame(a, cs);
      CopyIsSame(b, cs);
    }
    if Consistent(a, cs) && Consistent(b, cs) { ConsistentEqual(a, b, cs); }
  }

  lemma {:induction false} ConsistentEqual(a: Tree, b: Tree, cs: bool)
    requires Whole(a) && Whole(b) && Consistent(a, cs) && Consistent(b, cs)
    ensures Same(a, b, cs) <==> Content(a, cs) == Content(b, cs)
    decreases a
  {
    match (a, b)
    case (Num(x), Num(y)) => CloseIsEqual(x, y);
    case (Arr(xs), Arr(ys)) => ArraysEqual(xs, ys, cs);
    case (Obj(xs), Obj(ys)) => ObjectsEqual(xs, ys, cs);
    case _ =>
  }

  lemma {:induction false} ArraysEqual(xs: seq<Tree>, ys: seq<Tree>, cs: bool)
    requires forall i | 0 <= i < |xs| :: Whole(xs[i]) && Consistent(xs[i], cs)
    requires forall i | 0 <= i < |ys| :: Whole(ys[i]) && Consistent(ys[i], cs)
    ensures Same(Arr(xs), Arr(ys), cs) <==> Content(Arr(xs), cs) == Content(Arr(ys), cs)
    decreases xs
  {
    var cx, cy := Content(Arr(xs), cs).items, Content(Arr(ys), cs).items;
    if |xs| == |ys| {
      forall i | 0 <= i < |xs| ensures Same(xs[i], ys[i], cs) <==> cx[i] == cy[i] { ConsistentEqual(xs[i], ys[i], cs); }
      if Same(Arr(xs), Arr(ys), cs) { assert cx == cy; }
    }
  }

  lemma {:induction false} ObjectsEqual(xs: seq<Member>, ys: seq<Member>, cs: bool)
    requires Consistent(Obj(xs), cs) && Consistent(Obj(ys), cs) && Whole(Obj(xs)) && Whole(Obj(ys))
    ensures Same(Obj(xs), Obj(ys), cs) <==> ContentMap(xs, cs) == ContentMap(ys, cs)
    decreases xs
  {
    forall i, j | 0 <= i < |xs| && 0 <= j < |ys|
      ensures Same(xs[i].value, ys[j].value, cs) <==> Content(xs[i].value, cs) == Content(ys[j].value, cs)
    {
      ConsistentEqual(xs[i].value, ys[j].value, cs);
    }
    hide Same;
    if Same(Obj(xs), Obj(ys), cs) {
      MapsFromSame(xs, ys, cs);
    } else if ContentMap(xs, cs) == ContentMap(ys, cs) {
      SameFromMaps(xs, ys, cs);
    }
  }

  lemma {:induction false} MapsFromSame(xs: seq<Member>, ys: seq<Member>, cs: bool)
    requires Same(Obj(xs), Obj(ys), cs)
    requires forall i, j | 0 <= i < |xs| && 0 <= j < |ys| ::
      Same(xs[i].value, ys[j].value, cs) <==> Content(xs[i].value, cs) == Content(ys[j].value, cs)
    ensures ContentMap(xs, cs) == ContentMap(ys, cs)
  {
    hide Content, ContentMap, Same, Folded;
    SameMembers(xs, ys, cs);
    var mx, my := ContentMap(xs, cs), ContentMap(ys, cs);
    forall key ensures (key in mx <==> key in my) && (key in mx ==> mx[key] == my[key]) {
      if key in mx {
        var i := MapKeys(xs, key, cs);
        FoundAlike(xs, ys, xs[i].key, cs);
      } else if key in my {
        var j := MapKeys(ys, key, cs);
        FoundAlike(xs, ys, ys[j].key, cs);
      }
    }
  }

  lemma {:induction false} FoundAlike(xs: seq<Member>, ys: seq<Member>, key: Text, cs: bool)
    requires forall i | 0 <= i < |xs| :: HasPartner(xs, i, ys, cs)
    requires forall j | 0 <= j < |ys| :: IsPartner(xs, ys, j, cs)
    requires forall i, j | 0 <= i < |xs| && 0 <= j < |ys| ::
      Same(xs[i].value, ys[j].value, cs) <==> Content(xs[i].value, cs) == Content(ys[j].value, cs)
    ensures var k, mx, my := Folded(key, cs), ContentMap(xs, cs), ContentMap(ys, cs);
      (k in mx <==> k in my) && (k in mx ==> mx[k] == my[k])
  {
    hide Content, ContentMap, Same, Folded;
    MapFinds(xs, key, cs);
    MapFinds(ys, key, cs);
    var i, j := Find(xs, key, cs), Find(ys, key, cs);
    if i < |xs| {
      assert HasPartner(xs, i, ys, cs);
      FindFolded(ys, xs[i].key, key, cs);
    }
    if j < |ys| {
      assert IsPartner(xs, ys, j, cs);
      FindFolded(xs, ys[j].key, key, cs);
    }
  }

  lemma {:induction false} SameFromMaps(xs: seq<Member>, ys: seq<Member>, cs: bool)
    requires ContentMap(xs, cs) == ContentMap(ys, cs) && Whole(Obj(xs)) && Whole(Obj(ys))
    requires OneValueEach(xs, cs) && OneValueEach(ys, cs)
    requires forall i, j | 0 <= i < |xs| && 0 <= j < |ys| ::
      Same(xs[i].value, ys[j].value, cs) <==> Content(xs[i].value, cs) == Content(ys[j].value, cs)
    ensures Same(Obj(xs), Obj(ys), cs)
  {
    hide Content, ContentMap, Same, Folded;
    SameMembers(xs, ys, cs);
    forall i | 0 <= i < |xs| ensures HasPartner(xs, i, ys, cs) {
      FindsSelf(xs, i, cs);
      MapFinds(xs, xs[i].key, cs);
      MapFinds(ys, xs[i].key, cs);
      var k, j := Find(xs, xs[i].key, cs), Find(ys, xs[i].key, cs);
      Transitive(xs[i].value, xs[k].value, ys[j].value, cs);
    }
    forall j | 0 <= j < |ys| ensures IsPartner(xs, ys, j, cs) {
      FindsSelf(ys, j, cs);
      MapFinds(xs, ys[j].key, cs);
      MapFinds(ys, ys[j].key, cs);
      var i, k := Find(xs, ys[j].key, cs), Find(ys, ys[j].key, cs);
      Transitive(xs[i].value, ys[k].value, ys[j].value, cs);
    }
  }
}
