/** What the trail and event handlers take from a payload. */
module Payload {
  import opened Bytes
  import opened Json
  import opened Numbers
  import opened Options
  import opened Heap
  import opened Access
  import Padding
  import ParseSpec
  import Parser

  const TIMESTAMP: Text := [116, 105, 109, 101, 115, 116, 97, 109, 112]
  const MESSAGE: Text := [109, 101, 115, 115, 97, 103, 101]
  const VALUE: Text := [118, 97, 108, 117, 101]

  /** The member `valueint` of a number: truncated, and saturated at the ends of int. */
  function ValueInt(v: real): (n: int)
    ensures INT_MIN <= n <= INT_MAX
  {
    if v >= INT_MAX as real then INT_MAX
    else if v <= INT_MIN as real then INT_MIN
    else if v >= 0.0 then v.Floor else -((-v).Floor)
  }

  /**
   * The value types of a trail. The type of strings is 0, so a value that is missing or of
   * no type of these arrives as a string that is a null pointer.
   */
  datatype TrailValue = StringValue(s: Option<Text>) | BoolValue(b: bool) | DoubleValue(d: real) | IntValue(n: int)

  /** What a callback is given; strings copied by strdup are null when that failed. */
  datatype Message =
    | Trail(timestamp: Option<Text>, value: TrailValue)
    | Event(timestamp: Option<Text>, message: Option<Text>)

  predicate Thinner<T(==)>(a: Option<T>, b: Option<T>) { a == b || a == None }

  /** `m` is `full`, but that copies may be missing. */
  predicate Thinned(m: Message, full: Message) {
    match (m, full)
    case (Trail(t, v), Trail(t', v')) => Thinner(t, t') && v == v'
    case (Event(t, m), Event(t', m')) => Thinner(t, t') && Thinner(m, m')
    case _ => false
  }

  predicate HasString(t: Tree, key: Text) {
    t.Obj? && var i := Find(t.members, key, true); i < |t.members| && t.members[i].value.Str?
  }

  function StringOf(t: Tree, key: Text): Text
    requires HasString(t, key)
  {
    t.members[Find(t.members, key, true)].value.s
  }

  function TrailValueOf(t: Tree): TrailValue
    requires t.Obj?
  {
    var i := Find(t.members, VALUE, true);
    if i == |t.members| then StringValue(None) else
      match t.members[i].value
      case Str(s) => StringValue(Some(s))
      case Bool(b) => BoolValue(b)
      case Num(v) => if ValueInt(v) as real != v then DoubleValue(v) else IntValue(ValueInt(v))
      case _ => StringValue(None)
  }

  /** Integers of the range of int arrive as integers, and only those. */
  lemma IntegersStay(v: real, n: int)
    ensures ValueInt(v) as real == v && ValueInt(v) == n <==> v == n as real && INT_MIN <= n <= INT_MAX
  {
    if v == n as real && n < 0 { assert -v == (-n) as real; assert (-v).Floor == -n; }
  }

  /** What a payload parses to: what stands in front of its first NUL, as a C string. */
  function Outcome(payload: Text): ParseSpec.Parsed<Tree> { ParseSpec.ParseText(CString(payload) + [NUL], false) }

  lemma WholePayload(payload: Text)
    requires NulFree(payload)
    ensures Outcome(payload) == ParseSpec.ParseText(payload + [NUL], false)
  {
    CStringNulFree(payload);
  }

  /** The copy that the handlers parse: cut at the first NUL and padded with NULs to one byte more than the payload. */
  function Copy(payload: Text): (c: Text)
    ensures ParseSpec.Terminated(c) && |c| == |payload| + 1
  {
    var s := CString(payload);
    s + seq(|payload| + 1 - |s|, i => NUL)
  }

  lemma CopyParses(payload: Text)
    ensures ParseSpec.ParseText(Copy(payload), false) == Outcome(payload)
  {
    hide ParseSpec.ParseText;
    var s := CString(payload);
    assert (s + [NUL])[..|s|] == s;
    Padding.TextPadded(s + [NUL], Copy(payload));
  }

  /** A payload the handlers are written for, if it parses at all. */
  predicate GoodTrail(payload: Text) {
    var r := Outcome(payload); r.Ok? ==> HasString(r.value, TIMESTAMP)
  }

  predicate GoodEvent(payload: Text) {
    var r := Outcome(payload); r.Ok? ==> HasString(r.value, TIMESTAMP) && HasString(r.value, MESSAGE)
  }

  function TrailOf(payload: Text): Message
    requires Outcome(payload).Ok? && GoodTrail(payload)
  {
    var t := Outcome(payload).value;
    Trail(Some(StringOf(t, TIMESTAMP)), TrailValueOf(t))
  }

  function EventOf(payload: Text): Message
    requires Outcome(payload).Ok? && GoodEvent(payload)
  {
    var t := Outcome(payload).value;
    Event(Some(StringOf(t, TIMESTAMP)), Some(StringOf(t, MESSAGE)))
  }

  // ---- What arrives, by cases.

  /** The first member with the key. */
  predicate FirstMember(ms: seq<Member>, key: string, i: nat)
    requires forall k :: 0 <= k < |key| ==> key[k] as int < 128
  {
    i < |ms| && ms[i].key == Ascii(key) && forall k :: 0 <= k < i ==> ms[k].key != Ascii(key)
  }

  ghost predicate StringArrives(t: Tree, key: string, s: Text)
    requires forall k :: 0 <= k < |key| ==> key[k] as int < 128
  {
    t.Obj? && exists i: nat :: FirstMember(t.members, key, i) && t.members[i].value == Str(s)
  }

  /** An integer in the range of int arrives as an integer, any other number as a double. */
  ghost predicate Carries(value: TrailValue, x: Tree) {
    match x
    case Num(v) =>
      && (forall n: int :: value == IntValue(n) <==> v == n as real && -0x8000_0000 <= n <= 0x7FFF_FFFF)
      && (value.IntValue? || value == DoubleValue(v))
    case Bool(b) => value == BoolValue(b)
    case Str(s) => value == StringValue(Some(s))
    case _ => value == StringValue(None)
  }

  ghost predicate ValueArrives(t: Tree, value: TrailValue) {
    && t.Obj?
    && (forall i: nat :: FirstMember(t.members, "value", i) ==> Carries(value, t.members[i].value))
    && ((forall i: nat :: !FirstMember(t.members, "value", i)) ==> value == StringValue(None))
  }

  lemma KeysSpelled()
    ensures TIMESTAMP == Ascii("timestamp") && MESSAGE == Ascii("message") && VALUE == Ascii("value")
  {
  }

  lemma {:induction false} FindFirst(ms: seq<Member>, key: string, i: nat)
    requires forall k :: 0 <= k < |key| ==> key[k] as int < 128
    ensures FirstMember(ms, key, i) <==> i == Find(ms, Ascii(key), true) < |ms|
  {
    hide Find;
  }

  lemma StringIs(t: Tree, key: string)
    requires forall k :: 0 <= k < |key| ==> key[k] as int < 128
    requires HasString(t, Ascii(key))
    ensures StringArrives(t, key, StringOf(t, Ascii(key)))
  {
    hide Find;
    FindFirst(t.members, key, Find(t.members, Ascii(key), true));
  }

  lemma TrailValueIs(t: Tree)
    requires t.Obj?
    ensures ValueArrives(t, TrailValueOf(t))
  {
    hide Find, FirstMember, Carries, ValueInt;
    KeysSpelled();
    var k := Find(t.members, VALUE, true);
    forall i: nat ensures FirstMember(t.members, "value", i) <==> i == k < |t.members| {
      FindFirst(t.members, "value", i);
    }
    if k < |t.members| {
      assert FirstMember(t.members, "value", k);
      MemberCarries(t.members[k].value, TrailValueOf(t));
    }
  }

  lemma TrailArrives(t: Tree)
    requires HasString(t, TIMESTAMP)
    ensures t.Obj? && ValueArrives(t, TrailValueOf(t)) && StringArrives(t, "timestamp", StringOf(t, TIMESTAMP))
  {
    hide Find, ValueArrives, StringArrives, TrailValueOf;
    KeysSpelled();
    TrailValueIs(t);
    StringIs(t, "timestamp");
  }

  lemma EventArrives(t: Tree)
    requires HasString(t, TIMESTAMP) && HasString(t, MESSAGE)
    ensures StringArrives(t, "timestamp", StringOf(t, TIMESTAMP)) && StringArrives(t, "message", StringOf(t, MESSAGE))
  {
    hide Find, StringArrives;
    KeysSpelled();
    StringIs(t, "timestamp");
    StringIs(t, "message");
  }

  lemma MemberCarries(x: Tree, value: TrailValue)
    requires value == match x
      case Str(s) => StringValue(Some(s))
      case Bool(b) => BoolValue(b)
      case Num(v) => if ValueInt(v) as real != v then DoubleValue(v) else IntValue(ValueInt(v))
      case _ => StringValue(None)
    ensures Carries(value, x)
  {
    if x.Num? {
      var v := x.value;
      forall n: int ensures value == IntValue(n) <==> v == n as real && INT_MIN <= n <= INT_MAX { IntegersStay(v, n); }
    }
  }

  /** strdup; what it copies is not counted as a block. */
  method StrDup<T>(s: T, mem: Memory) returns (copy: Option<T>)
    modifies mem`failures
    ensures copy == None || copy == Some(s)
    ensures mem.failures == old(mem.failures) + if copy == None then 1 else 0
  {
    var ok := mem.Grant();
    copy := if ok then Some(s) else None;
  }

  /** The string member `key`; the handlers do not check that it is there. */
  method ReadString(json: Node, key: Text, ghost s: Shape, ghost t: Tree) returns (text: Text)
    requires json == s.node && Holding(s, t) && HasString(t, key)
    ensures text == StringOf(t, key)
  {
    hide AllWired, HoldsMembers, CString, AllOwned;
    var item, i := GetObjectItemCaseSensitive(json, key, s, t);
    text := CString(item.valuestring[..]);
  }

  method ReadValue(json: Node, ghost s: Shape, ghost t: Tree) returns (value: TrailValue)
    requires json == s.node && Holding(s, t) && t.Obj?
    ensures value == TrailValueOf(t)
  {
    hide AllWired, HoldsMembers, HoldsItems, CString, AllOwned, Ring;
    var item, i := GetObjectItemCaseSensitive(json, VALUE, s, t);
    value := StringValue(None);
    if item != null {
      if item.kind == StringKind {
        value := StringValue(Some(CString(item.valuestring[..])));
      } else if item.kind == TrueKind || item.kind == FalseKind {
        value := BoolValue(item.kind == TrueKind);
      } else if item.kind == NumberKind {
        if ValueInt(item.valuedouble) as real != item.valuedouble {
          value := DoubleValue(item.valuedouble);
        } else {
          value := IntValue(ValueInt(item.valuedouble));
        }
      }
    }
  }

  /** The parsed tree is not freed by the handler: its blocks stay live. */
  method ReadTrail(payload: Text, mem: Memory) returns (ok: bool, message: Message, ghost kept: set<object>)
    requires GoodTrail(payload)
    modifies mem
    ensures ok ==> Outcome(payload).Ok? && Thinned(message, TrailOf(payload))
    ensures ok && mem.failures == old(mem.failures) ==> message == TrailOf(payload)
    ensures ok ==> message.Trail? && ValueArrives(Outcome(payload).value, message.value)
    ensures ok && message.timestamp.Some? ==>
      StringArrives(Outcome(payload).value, "timestamp", message.timestamp.value)
    ensures mem.failures >= old(mem.failures)
    ensures !ok ==> kept == {} && (Outcome(payload).Fail? || mem.failures > old(mem.failures))
    ensures mem.live == old(mem.live) + kept && fresh(kept)
  {
    hide ParseSpec.ParseText, Outcome, HasString, StringOf, ValueArrives, StringArrives, TrailValueOf, AllWired,
      AllOwned, AllDistinct, Distinct, Wired, Holds, Owned;
    message := Trail(None, StringValue(None));
    var json, end;
    ghost var ss;
    json, end, ss := Parser.ParseWithLengthOpts(Copy(payload), false, mem);
    kept := AllOwned(ss);
    CopyParses(payload);
    if json == null {
      RowOfNone(ss);
      return false, message, kept;
    }
    TrailArrives(Outcome(payload).value);
    Live(ss);
    var timestamp := ReadString(json, TIMESTAMP, ss[0], Outcome(payload).value);
    var value := ReadValue(json, ss[0], Outcome(payload).value);
    var copy := StrDup(timestamp, mem);
    return true, Trail(copy, value), kept;
  }

  method ReadEvent(payload: Text, mem: Memory) returns (ok: bool, message: Message, ghost kept: set<object>)
    requires GoodEvent(payload)
    modifies mem
    ensures ok ==> Outcome(payload).Ok? && Thinned(message, EventOf(payload))
    ensures ok && mem.failures == old(mem.failures) ==> message == EventOf(payload)
    ensures ok && message.timestamp.Some? ==>
      StringArrives(Outcome(payload).value, "timestamp", message.timestamp.value)
    ensures ok && message.message.Some? ==> StringArrives(Outcome(payload).value, "message", message.message.value)
    ensures mem.failures >= old(mem.failures)
    ensures !ok ==> kept == {} && (Outcome(payload).Fail? || mem.failures > old(mem.failures))
    ensures mem.live == old(mem.live) + kept && fresh(kept)
  {
    hide ParseSpec.ParseText, Outcome, HasString, StringOf, ValueArrives, StringArrives, AllWired, AllOwned,
      AllDistinct, Distinct, Wired, Holds, Owned;
    message := Event(None, None);
    var json, end;
    ghost var ss;
    json, end, ss := Parser.ParseWithLengthOpts(Copy(payload), false, mem);
    kept := AllOwned(ss);
    CopyParses(payload);
    if json == null {
      RowOfNone(ss);
      return false, message, kept;
    }
    EventArrives(Outcome(payload).value);
    Live(ss);
    var timestamp := ReadString(json, TIMESTAMP, ss[0], Outcome(payload).value);
    var text := ReadString(json, MESSAGE, ss[0], Outcome(payload).value);
    var copy := StrDup(timestamp, mem);
    var textCopy := StrDup(text, mem);
    return true, Event(copy, textCopy), kept;
  }

  lemma {:induction false} Live(ss: seq<Shape>)
    requires |ss| == 1
    ensures {ss[0].node} + Block(ss[0].str) + Block(ss[0].name) + AllOwned(ss[0].kids) <= AllOwned(ss)
  {
    OwnParts(ss[0]);
    OwnedByAll(ss, 0);
  }

  lemma {:induction false} RowOfNone(ss: seq<Shape>)
    requires ss == []
    ensures AllOwned(ss) == {}
  {
  }
}
