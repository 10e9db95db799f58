/**
 * The cJSON nodes as heap objects, the allocator, and what it means for a tree of
 * nodes to own its memory and to hold a JSON value.
 */
module Heap {
  import opened Bytes
  import opened Json

  datatype Kind = Invalid | FalseKind | TrueKind | NullKind | NumberKind | StringKind | ArrayKind | ObjectKind

  /** `struct cJSON`; `name` is its field `string`. */
  class Node {
    var next: Node?
    var prev: Node?
    var child: Node?
    var kind: Kind
    var valuestring: array?<byte>
    var valuedouble: real
    var name: array?<byte>

    constructor ()
      ensures next == null && prev == null && child == null && kind == Invalid
      ensures valuestring == null && name == null && valuedouble == 0.0
    {
      next, prev, child, kind, valuestring, valuedouble, name := null, null, null, Invalid, null, 0.0, null;
    }
  }

  /** An allocator that may fail at any call. `live` are the blocks handed out and not yet freed. */
  class Memory {
    ghost var live: set<object>
    ghost var failures: nat

    method NewItem() returns (n: Node?)
      modifies this
      ensures n == null ==> live == old(live) && failures == old(failures) + 1
      ensures n != null ==> fresh(n) && live == old(live) + {n} && failures == old(failures)
      ensures n != null ==> n.next == null && n.prev == null && n.child == null && n.kind == Invalid
      ensures n != null ==> n.valuestring == null && n.name == null
    {
      if * {
        failures := failures + 1;
        return null;
      }
      n := new Node();
      live := live + {n};
    }

    method NewBlock(size: nat) returns (b: array?<byte>)
      modifies this
      ensures b == null ==> live == old(live) && failures == old(failures) + 1
      ensures b != null ==> fresh(b) && b.Length == size && live == old(live) + {b} && failures == old(failures)
    {
      if * {
        failures := failures + 1;
        return null;
      }
      b := new byte[size];
      live := live + {b};
    }

    /** An allocation whose block is not counted. */
    method Grant() returns (ok: bool)
      modifies this`failures
      ensures failures == old(failures) + if ok then 0 else 1
    {
      ok := *;
      if !ok {
        failures := failures + 1;
      }
    }

    /** realloc: on success the old block is gone and its bytes are in the new one. */
    method Resize(b: array<byte>, size: nat) returns (r: array?<byte>)
      requires b in live
      modifies this
      ensures r == null ==> live == old(live) && failures == old(failures) + 1
      ensures r != null ==> fresh(r) && r.Length == size && live == old(live) - {b} + {r} && failures == old(failures)
      ensures r != null ==> forall i | 0 <= i < size && i < b.Length :: r[i] == b[i]
    {
      r := NewBlock(size);
      if r != null {
        forall i | 0 <= i < size && i < b.Length { r[i] := b[i]; }
        live := live - {b};
      }
    }

    /** Freeing a block twice, or one that was never handed out, is a violation. */
    method Free(o: object)
      requires o in live
      modifies this`live
      ensures live == old(live) - {o}
    {
      live := live - {o};
    }
  }

  /** The nodes and string blocks of a tree, as found by following its pointers. */
  datatype Shape = Shape(node: Node, str: array?<byte>, name: array?<byte>, kids: seq<Shape>)

  ghost function Block(b: array?<byte>): (r: set<object>)
    ensures forall o :: o in r ==> o is array<byte>
  {
    if b == null then {} else {b}
  }

  /** The blocks of a node itself. */
  ghost function Own(s: Shape): set<object> { {s.node} + Block(s.str) + Block(s.name) }

  /** Every block of a tree. */
  ghost function Owned(s: Shape): (r: set<object>)
    ensures forall o :: o in r ==> o is Node || o is array<byte>
    decreases s
  {
    Own(s) + AllOwned(s.kids)
  }

  ghost function AllOwned(ss: seq<Shape>): (r: set<object>)
    ensures forall o :: o in r ==> o is Node || o is array<byte>
    decreases ss
  {
    if ss == [] then {} else Owned(ss[0]) + AllOwned(ss[1..])
  }

  /** Every node and every block occurs once. */
  ghost predicate Distinct(s: Shape)
    decreases s
  {
    (s.str != null ==> s.str != s.name) && Own(s) !! AllOwned(s.kids) && AllDistinct(s.kids)
  }

  ghost predicate AllDistinct(ss: seq<Shape>)
    decreases ss
  {
    ss != [] ==> Distinct(ss[0]) && Owned(ss[0]) !! AllOwned(ss[1..]) && AllDistinct(ss[1..])
  }

  ghost function First(ss: seq<Shape>): Node? { if ss == [] then null else ss[0].node }

  /** The pointers of the nodes are those of the shape. */
  ghost predicate Wired(s: Shape)
    reads s.node`valuestring, s.node`name, s.node`child, AllOwned(s.kids)
    decreases s
  {
    && s.node.valuestring == s.str && s.node.name == s.name
    && s.node.child == First(s.kids) && AllWired(s.kids)
  }

  /** Siblings are chained by `next`; the last one ends the chain. */
  ghost predicate AllWired(ss: seq<Shape>)
    reads AllOwned(ss)
    decreases ss
  {
    ss != [] ==>
      && Own(ss[0]) <= Owned(ss[0]) <= AllOwned(ss)
      && Wired(ss[0]) && ss[0].node.next == First(ss[1..]) && AllWired(ss[1..])
  }

  ghost function Last(ss: seq<Shape>): Node
    requires ss != []
  {
    ss[|ss| - 1].node
  }

  /** `prev` of each sibling is the one before it, starting from `p`. */
  ghost predicate Backed(p: Node, ss: seq<Shape>)
    reads AllOwned(ss)
    decreases ss
  {
    ss != [] ==>
      && Own(ss[0]) <= Owned(ss[0]) <= AllOwned(ss)
      && ss[0].node.prev == p && Backed(ss[0].node, ss[1..])
  }

  /** The head's `prev` is the tail. */
  ghost predicate Ring(ss: seq<Shape>)
    reads AllOwned(ss)
  {
    ss != [] ==> Backed(Last(ss), ss)
  }

  /** The block holds `x` and its terminator. */
  ghost predicate IsCString(b: array?<byte>, x: Text)
    reads Block(b)
  {
    b != null && CString(b[..]) == x && |x| < b.Length
  }

  ghost predicate Named(b: array?<byte>)
    reads Block(b)
  {
    b != null ==> IsCString(b, CString(b[..]))
  }

  /** The nodes of `s` say what `t` says. */
  ghost predicate Holds(s: Shape, t: Tree)
    reads s.node`kind, s.node`valuedouble, Block(s.str), AllOwned(s.kids)
    decreases s
  {
    var n := s.node;
    match t
    case Null => n.kind == NullKind && s.str == null && s.kids == []
    case Bool(b) => n.kind == (if b then TrueKind else FalseKind) && s.str == null && s.kids == []
    case Num(v) => n.kind == NumberKind && n.valuedouble == v && s.str == null && s.kids == []
    case Str(x) => n.kind == StringKind && IsCString(s.str, x) && s.kids == []
    case Arr(items) => n.kind == ArrayKind && s.str == null && HoldsItems(s.kids, items) && Ring(s.kids)
    case Obj(ms) => n.kind == ObjectKind && s.str == null && HoldsMembers(s.kids, ms) && Ring(s.kids)
  }

  ghost predicate HoldsItems(ss: seq<Shape>, ts: seq<Tree>)
    reads AllOwned(ss)
    decreases ss
  {
    && |ss| == |ts|
    && (ss != [] ==>
      && Own(ss[0]) <= Owned(ss[0]) <= AllOwned(ss)
      && Named(ss[0].name) && Holds(ss[0], ts[0]) && HoldsItems(ss[1..], ts[1..]))
  }

  ghost predicate HoldsMembers(ss: seq<Shape>, ms: seq<Member>)
    reads AllOwned(ss)
    decreases ss
  {
    && |ss| == |ms|
    && (ss != [] ==>
      && Own(ss[0]) <= Owned(ss[0]) <= AllOwned(ss)
      && IsCString(ss[0].name, ms[0].key) && Holds(ss[0], ms[0].value) && HoldsMembers(ss[1..], ms[1..]))
  }

  // ---- Rows of siblings by index, for code that builds them from the front.

  lemma {:induction false} OwnParts(s: Shape)
    ensures s.node in Owned(s) && AllOwned(s.kids) <= Owned(s) && Block(s.str) + Block(s.name) <= Owned(s)
    ensures Distinct(s) ==> s.node !in AllOwned(s.kids)
  {
  }

  ghost function Heads(ss: seq<Shape>): (ns: seq<Node>)
    ensures |ns| == |ss| && forall i | 0 <= i < |ss| :: ns[i] == ss[i].node
  {
    seq(|ss|, i requires 0 <= i < |ss| => ss[i].node)
  }

  ghost function After(ns: seq<Node>, i: nat): Node? { if i + 1 < |ns| then ns[i + 1] else null }

  /** The nodes are linked both ways; the head's `prev` is open. */
  ghost predicate Joined(ns: seq<Node>)
    reads (set n | n in ns)`next, (set n | n in ns)`prev
  {
    && (forall i | 0 <= i < |ns| :: ns[i].next == After(ns, i))
    && (forall i | 0 < i < |ns| :: ns[i].prev == ns[i - 1])
  }

  lemma HeadsAppend(ss: seq<Shape>, s: Shape)
    ensures Heads(ss + [s]) == Heads(ss) + [s.node]
  {
  }

  lemma HeadsTail(ss: seq<Shape>)
    requires ss != []
    ensures Heads(ss[1..]) == Heads(ss)[1..]
  {
  }

  /** The siblings are wired and hold the values `ts`, by index. */
  ghost predicate Values(ss: seq<Shape>, ts: seq<Tree>)
    reads AllOwned(ss)
  {
    && |ss| == |ts|
    && forall i | 0 <= i < |ss| :: Owned(ss[i]) <= AllOwned(ss) && Holding(ss[i], ts[i])
  }

  ghost predicate Holding(s: Shape, t: Tree)
    reads s.node`kind, s.node`valuedouble, s.node`valuestring, s.node`name, s.node`child, Block(s.str), AllOwned(s.kids)
  {
    Wired(s) && Holds(s, t)
  }

  lemma {:induction false} AllOwnedAppend(ss: seq<Shape>, s: Shape)
    ensures AllOwned(ss + [s]) == AllOwned(ss) + Owned(s)
    decreases |ss|
  {
    if ss != [] {
      AllOwnedAppend(ss[1..], s);
      assert (ss + [s])[1..] == ss[1..] + [s];
    }
  }

  lemma {:induction false} OwnedByAll(ss: seq<Shape>, i: nat)
    requires i < |ss|
    ensures Owned(ss[i]) <= AllOwned(ss)
    decreases |ss|
  {
    if i > 0 { OwnedByAll(ss[1..], i - 1); }
  }

  lemma {:induction false} DistinctAppend(ss: seq<Shape>, s: Shape)
    ensures AllDistinct(ss + [s]) <==> AllDistinct(ss) && Distinct(s) && AllOwned(ss) !! Owned(s)
    decreases |ss|
  {
    if ss == [] {
      assert (ss + [s])[1..] == [];
    } else {
      DistinctAppend(ss[1..], s);
      AllOwnedAppend(ss[1..], s);
      assert (ss + [s])[1..] == ss[1..] + [s];
    }
  }

  lemma {:induction false} DistinctPair(ss: seq<Shape>, i: nat, j: nat)
    requires AllDistinct(ss) && i < |ss| && j < |ss|
    ensures Distinct(ss[i]) && (i != j ==> Owned(ss[i]) !! Owned(ss[j]))
    decreases |ss|
  {
    if i > 0 && j > 0 {
      DistinctPair(ss[1..], i - 1, j - 1);
    } else if i == 0 && j > 0 {
      OwnedByAll(ss[1..], j - 1);
    } else if i > 0 {
      DistinctPair(ss[1..], i - 1, 0);
      OwnedByAll(ss[1..], i - 1);
    }
  }

  lemma JoinedTail(ns: seq<Node>)
    requires Joined(ns) && ns != []
    ensures Joined(ns[1..])
  {
    var r := ns[1..];
    forall i | 0 <= i < |r| ensures r[i].next == After(r, i) { assert ns[i + 1].next == After(ns, i + 1); }
    forall i | 0 < i < |r| ensures r[i].prev == r[i - 1] { assert ns[i + 1].prev == ns[i]; }
  }

  lemma {:induction false} RowWired(ss: seq<Shape>)
    requires Joined(Heads(ss)) && forall i | 0 <= i < |ss| :: Wired(ss[i])
    ensures AllWired(ss)
    decreases |ss|
  {
    if ss != [] {
      HeadsTail(ss);
      JoinedTail(Heads(ss));
      assert forall i | 0 <= i < |ss[1..]| :: ss[1..][i] == ss[i + 1];
      RowWired(ss[1..]);
      assert Heads(ss)[0].next == After(Heads(ss), 0);
    }
  }

  lemma {:induction false} RowBacked(ss: seq<Shape>, p: Node)
    requires Joined(Heads(ss)) && ss != [] && ss[0].node.prev == p
    ensures Backed(p, ss)
    decreases |ss|
  {
    if |ss| > 1 {
      HeadsTail(ss);
      JoinedTail(Heads(ss));
      assert Heads(ss)[1].prev == Heads(ss)[0];
      RowBacked(ss[1..], ss[0].node);
    }
  }

  ghost predicate Unique(ns: seq<Node>) { forall i, j | 0 <= i < j < |ns| :: ns[i] != ns[j] }

  lemma {:induction false} HeadsUnique(ss: seq<Shape>)
    requires AllDistinct(ss)
    ensures Unique(Heads(ss)) && forall i | 0 <= i < |ss| :: ss[i].node in AllOwned(ss)
  {
    hide *;
    UniqueByIndex(Heads(ss));
    forall i, j | 0 <= i < j < |ss| ensures ss[i].node != ss[j].node {
      DistinctPair(ss, i, j);
      OwnParts(ss[i]);
      OwnParts(ss[j]);
    }
    forall i | 0 <= i < |ss| ensures ss[i].node in AllOwned(ss) {
      OwnedByAll(ss, i);
      OwnParts(ss[i]);
    }
  }

  lemma UniqueByIndex(ns: seq<Node>)
    ensures (forall i, j | 0 <= i < j < |ns| :: ns[i] != ns[j]) ==> Unique(ns)
  {
  }

  /**
   * cJSON_Delete on the first of a chain of siblings: it frees every node and every
   * string of the chain, each exactly once.
   */
  method Delete(item: Node?, mem: Memory, ghost ss: seq<Shape>)
    requires item == First(ss) && AllWired(ss) && AllDistinct(ss)
    requires AllOwned(ss) <= mem.live
    modifies mem`live
    ensures mem.live == old(mem.live) - AllOwned(ss)
    decreases ss
  {
    var item := item;
    ghost var rest := ss;
    while item != null
      invariant item == First(rest) && AllWired(rest) && AllDistinct(rest)
      invariant AllOwned(rest) <= mem.live
      invariant mem.live - AllOwned(rest) == old(mem.live) - AllOwned(ss)
      invariant rest == ss || |rest| < |ss|
      decreases rest
    {
      var next := item.next;
      DeleteOne(item, mem, rest[0]);
      item := next;
      rest := rest[1..];
    }
  }

  /** The body of the loop: the children, the strings and the node itself. */
  method DeleteOne(item: Node, mem: Memory, ghost s: Shape)
    requires item == s.node && Wired(s) && Distinct(s)
    requires Owned(s) <= mem.live
    modifies mem`live
    ensures mem.live == old(mem.live) - Owned(s)
    decreases s
  {
    if item.child != null {
      Delete(item.child, mem, s.kids);
    }
    if item.valuestring != null {
      mem.Free(item.valuestring);
    }
    if item.name != null {
      mem.Free(item.name);
    }
    mem.Free(item);
  }

  /** The first item of an array, and the others. */
  lemma {:induction false} ItemRow(ss: seq<Shape>, ts: seq<Tree>)
    requires AllWired(ss) && HoldsItems(ss, ts) && ss != []
    ensures |ts| == |ss| && Holding(ss[0], ts[0]) && ss[0].node.next == First(ss[1..])
    ensures AllWired(ss[1..]) && HoldsItems(ss[1..], ts[1..])
    ensures ss[0].node in Owned(ss[0]) && Owned(ss[0]) <= AllOwned(ss) && AllOwned(ss[1..]) <= AllOwned(ss)
  {
  }

  /** The first member of an object, and the others. */
  lemma {:induction false} MemberRow(ss: seq<Shape>, ms: seq<Member>)
    requires AllWired(ss) && HoldsMembers(ss, ms) && ss != []
    ensures |ms| == |ss| && Holding(ss[0], ms[0].value) && ss[0].node.next == First(ss[1..])
    ensures IsCString(ss[0].name, ms[0].key) && ss[0].node.name == ss[0].name
    ensures AllWired(ss[1..]) && HoldsMembers(ss[1..], ms[1..])
    ensures Own(ss[0]) <= Owned(ss[0]) <= AllOwned(ss) && AllOwned(ss[1..]) <= AllOwned(ss)
  {
  }
}
