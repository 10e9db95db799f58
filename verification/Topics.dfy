/** Message topics: building one, and taking the agent and the name back out in place. */
module Topics {
  import opened TopicMatch

  datatype HandlerKind = TRAIL | EVENT

  function KindName(k: HandlerKind): (s: string)
    ensures NoSlash(s) && NoWild(s) && s != ""
  {
    match k case TRAIL => "trail" case EVENT => "event"
  }

  predicate NoSlash(s: string) { forall i | 0 <= i < |s| :: s[i] != '/' }

  /** "agent/%s/%s/%s" */
  function Topic(agent: string, kind: string, name: string): string {
    "agent/" + (agent + ("/" + (kind + ("/" + name))))
  }

  lemma TopicSpelled(agent: string, name: string)
    ensures Topic(agent, KindName(TRAIL), name) == "agent/" + agent + "/trail/" + name
    ensures Topic(agent, KindName(EVENT), name) == "agent/" + agent + "/event/" + name
  {
    assert "/" + ("trail" + "/") == "/trail/" && "/" + ("event" + "/") == "/event/";
  }

  const FORMAT := "agent/%s/%s/%s"

  /** What snprintf leaves of `text` in a buffer of `size` bytes. */
  function Snprintf(text: string, size: nat): string
    requires size > 0
  {
    if |text| < size then text else text[..size - 1]
  }

  /** buildTopicWithName: the buffer is never too small. */
  method BuildTopicWithName(clientId: string, kind: string, name: string) returns (data: string)
    ensures data == Topic(clientId, kind, name)
  {
    var len := |FORMAT| + |clientId| + |kind| + |name| - 3;
    data := Snprintf(Topic(clientId, kind, name), len);
  }

  // ---- The parts of a topic.

  /** The position of the first `c`, or the length. */
  function IndexOf(s: string, c: char): (i: nat)
    ensures i <= |s| && (i < |s| ==> s[i] == c) && forall k | 0 <= k < i :: s[k] != c
  {
    if s == "" || s[0] == c then 0 else 1 + IndexOf(s[1..], c)
  }

  function AfterFirst(s: string): string {
    var i := IndexOf(s, '/');
    if i < |s| then s[i + 1..] else ""
  }

  function AgentOf(topic: string): string {
    var rest := AfterFirst(topic);
    rest[..IndexOf(rest, '/')]
  }

  /** There is a slash behind the first one, so the split finds both parts. */
  predicate TwoSlashes(topic: string) { IndexOf(AfterFirst(topic), '/') < |AfterFirst(topic)| }

  /** What follows the last slash. */
  function NameOf(s: string): (r: string)
    decreases |s|
  {
    var i := IndexOf(s, '/');
    if i == |s| then s else NameOf(s[i + 1..])
  }

  lemma {:induction false} FirstAppend(a: string, b: string, c: char)
    requires forall i | 0 <= i < |a| :: a[i] != c
    ensures IndexOf(a + ([c] + b), c) == |a|
  {
    var s := a + ([c] + b);
    assert s[|a|] == c && forall i | 0 <= i < |a| :: a[i] == s[i];
  }

  lemma {:induction false} NameUnfold(s: string)
    ensures var i := IndexOf(s, '/'); NameOf(s) == if i == |s| then s else NameOf(s[i + 1..])
  {
  }

  lemma BehindPart(a: string, b: string)
    ensures (a + b)[|a|..] == b && (a + b)[..|a|] == a
  {
  }

  lemma {:induction false} NameBehind(a: string, b: string)
    requires NoSlash(a)
    ensures NameOf(a + ("/" + b)) == NameOf(b)
  {
    hide IndexOf, NameOf;
    var s := a + ("/" + b);
    NameUnfold(s);
    FirstAppend(a, b, '/');
    BehindPart(a + "/", b);
    assert s == (a + "/") + b;
  }

  lemma {:induction false} NameStep(a: string, b: string)
    ensures NameOf(a + ("/" + b)) == NameOf(b)
    decreases |a|
  {
    if NoSlash(a) {
      NameBehind(a, b);
    } else {
      hide IndexOf, NameOf;
      var i := IndexOf(a, '/');
      var x, y := a[..i], a[i + 1..];
      assert a + ("/" + b) == x + ("/" + (y + ("/" + b)));
      NameBehind(x, y + ("/" + b));
      NameStep(y, b);
    }
  }

  lemma {:induction false} NameIsPlain(s: string)
    ensures NoSlash(NameOf(s)) && (NoSlash(s) ==> NameOf(s) == s)
    decreases |s|
  {
    var i := IndexOf(s, '/');
    if i < |s| { NameIsPlain(s[i + 1..]); }
  }

  lemma {:induction false} AgentStep(agent: string, rest: string)
    ensures AgentOf("agent/" + (agent + ("/" + rest))) == agent[..IndexOf(agent, '/')]
  {
    var s := "agent/" + (agent + ("/" + rest));
    hide IndexOf;
    var t := agent + ("/" + rest);
    assert s == "agent" + ("/" + t);
    FirstAppend("agent", t, '/');
    BehindPart("agent" + "/", t);
    assert s == ("agent" + "/") + t;
    var i := IndexOf(agent, '/');
    if i == |agent| {
      FirstAppend(agent, rest, '/');
      assert t[..i] == agent;
    } else {
      FirstAppend(agent[..i], agent[i + 1..] + ("/" + rest), '/');
      assert t == agent[..i] + ("/" + (agent[i + 1..] + ("/" + rest)));
      assert t[..i] == agent[..i];
    }
  }

  /** The parts are what the topic was built from exactly when they have no slash. */
  lemma SplitBuild(agent: string, kind: string, name: string)
    ensures AgentOf(Topic(agent, kind, name)) == agent <==> NoSlash(agent)
    ensures NameOf(Topic(agent, kind, name)) == name <==> NoSlash(name)
  {
    AgentStep(agent, kind + ("/" + name));
    assert agent[..|agent|] == agent;
    assert Topic(agent, kind, name) == "agent" + ("/" + (agent + ("/" + (kind + ("/" + name)))));
    NameStep("agent", agent + ("/" + (kind + ("/" + name))));
    NameStep(agent, kind + ("/" + name));
    NameStep(kind, name);
    NameIsPlain(name);
  }

  // ---- The split on the caller's buffer.

  /** The C string that starts at `i` of the buffer. */
  ghost predicate StringAt(t: seq<char>, i: nat, s: string) {
    i + |s| < |t| && t[i..i + |s|] == s && t[i + |s|] == '\0' && CText(s)
  }

  lemma StringBytes(t: seq<char>, i: nat, s: string)
    requires StringAt(t, i, s)
    ensures i + |s| < |t| && (forall k | 0 <= k < |s| :: s[k] == t[i + k] && s[k] != '\0') && t[i + |s|] == '\0'
  {
    assert forall k | 0 <= k < |s| :: s[k] == t[i..i + |s|][k];
  }

  /** strchr */
  method StrChr(t: array<char>, from: nat, c: char, ghost s: string) returns (i: nat)
    requires StringAt(t[..], from, s) && IndexOf(s, c) < |s|
    ensures i == from + IndexOf(s, c)
  {
    StringBytes(t[..], from, s);
    var n := 0;
    while t[from + n] != c
      invariant n <= IndexOf(s, c)
      decreases |s| - n
    {
      assert s[n] == t[from + n];
      n := n + 1;
    }
    assert s[n] == t[from + n];
    i := from + n;
  }

  /** strlen */
  method StrLen(t: array<char>, from: nat, ghost s: string) returns (n: nat)
    requires StringAt(t[..], from, s)
    ensures n == |s|
  {
    StringBytes(t[..], from, s);
    n := 0;
    while t[from + n] != '\0'
      invariant n <= |s| && (n < |s| ==> s[n] == t[from + n])
      decreases |s| - n
    {
      n := n + 1;
    }
  }

  /** The position of the last slash. */
  ghost function LastSlash(s: string): (i: int)
    ensures -1 <= i < |s| && (i >= 0 ==> s[i] == '/') && forall k | i < k < |s| :: s[k] != '/'
  {
    if s == "" then -1 else if s[|s| - 1] == '/' then |s| - 1 else LastSlash(s[..|s| - 1])
  }

  /** strrchr */
  method StrRChr(t: array<char>, ghost s: string) returns (i: nat)
    requires StringAt(t[..], 0, s) && LastSlash(s) >= 0
    ensures i == LastSlash(s)
  {
    StringBytes(t[..], 0, s);
    var k := 0;
    var last := -1;
    while t[k] != '\0'
      invariant 0 <= k <= |s|
      invariant -1 <= last < k && (last >= 0 ==> s[last] == '/') && forall n | last < n < k :: s[n] != '/'
      decreases |s| - k
    {
      if t[k] == '/' {
        last := k;
      }
      k := k + 1;
    }
    i := last;
  }

  ghost function MemMoved(t: seq<char>, to: nat, from: nat, n: nat): (u: seq<char>)
    requires to <= from && from + n <= |t|
    ensures |u| == |t|
  {
    t[..to] + t[from..from + n] + t[to + n..]
  }

  /** memmove of `n` bytes within the buffer. */
  method MemMove(t: array<char>, to: nat, from: nat, n: nat)
    requires to <= from && from + n <= t.Length
    modifies t
    ensures t[..] == MemMoved(old(t[..]), to, from, n)
  {
    ghost var before, d := t[..], from - to;
    for k := 0 to n
      invariant forall m | to <= m < to + k :: t[m] == before[m + d]
      invariant forall m | 0 <= m < to :: t[m] == before[m]
      invariant forall m | to + k <= m < t.Length :: t[m] == before[m]
    {
      t[to + k] := t[from + k];
    }
    MovedIs(before, t[..], to, from, n);
  }

  lemma MovedIs(before: seq<char>, after: seq<char>, to: nat, from: nat, n: nat)
    requires to <= from && from + n <= |before| == |after|
    requires forall m | to <= m < to + n :: after[m] == before[m + (from - to)]
    requires forall m | 0 <= m < to || to + n <= m < |after| :: after[m] == before[m]
    ensures after == MemMoved(before, to, from, n)
  {
  }

  lemma {:induction false} NameBehindLast(s: string)
    ensures NameOf(s) == s[LastSlash(s) + 1..]
    decreases |s|
  {
    hide LastSlash, NameOf;
    var i := IndexOf(s, '/');
    NameUnfold(s);
    if i < |s| {
      var u := s[i + 1..];
      NameBehindLast(u);
      var m := LastSlash(u);
      var j := i + 1 + m;
      assert forall k | j < k < |s| :: s[k] == u[k - i - 1];
      LastUnique(s, LastSlash(s), j);
      assert s[j + 1..] == u[m + 1..];
    }
  }

  lemma LastUnique(s: string, i: int, j: int)
    requires -1 <= i < |s| && 0 <= j < |s| && s[j] == '/' && (i >= 0 ==> s[i] == '/')
    requires (forall k | i < k < |s| :: s[k] != '/') && (forall k | j < k < |s| :: s[k] != '/')
    ensures i == j
  {
  }

  lemma {:induction false} TopicFacts(s: string)
    requires TwoSlashes(s)
    ensures var f, g, l := IndexOf(s, '/'), IndexOf(AfterFirst(s), '/'), LastSlash(s);
      && f + 1 + g <= l < |s| && AfterFirst(s) == s[f + 1..]
      && AgentOf(s) == s[f + 1..f + 1 + g] && NameOf(s) == s[l + 1..]
  {
    hide IndexOf, LastSlash, NameOf;
    NameBehindLast(s);
    var f, rest := IndexOf(s, '/'), AfterFirst(s);
    assert IndexOf(rest, '/') < |rest| && rest == s[f + 1..];
    assert s[f + 1 + IndexOf(rest, '/')] == rest[IndexOf(rest, '/')];
  }

  lemma SlashesMoved(t: seq<char>, s: string, f: nat, l: nat)
    requires StringAt(t, 0, s) && f <= l < |s|
    ensures |s| < |t| && StringAt(t, f, s[f..]) && StringAt(MemMoved(t, f, f + 1, |s| - f), l, s[l + 1..])
  {
    var u := MemMoved(t, f, f + 1, |s| - f);
    assert forall k | f <= k < |s| :: u[k] == t[k + 1];
    assert u[l..l + (|s| - l - 1)] == t[l + 1..|s|] == t[..|s|][l + 1..];
    assert t[f..|s|] == t[..|s|][f..];
  }

  lemma CutHere(t: seq<char>, f: nat, s: string, g: nat, l: nat, n: string)
    requires StringAt(t, f, s) && g < |s| && f + g < l && StringAt(t, l, n)
    ensures StringAt(t[f + g := '\0'], f, s[..g]) && StringAt(t[f + g := '\0'], l, n)
  {
    var u := t[f + g := '\0'];
    assert u[f..f + g] == t[f..f + |s|][..g];
    assert u[l..l + |n|] == t[l..l + |n|];
  }

  /** Ends the agent at its slash, in front of the name. */
  method CutAgent(t: array<char>, agent: nat, ghost rest: string, ghost at: nat, ghost name: string)
    requires StringAt(t[..], agent, rest) && IndexOf(rest, '/') < |rest|
    requires agent + IndexOf(rest, '/') < at && StringAt(t[..], at, name)
    modifies t
    ensures StringAt(t[..], agent, rest[..IndexOf(rest, '/')]) && StringAt(t[..], at, name)
  {
    hide StringAt, IndexOf;
    ghost var before := t[..];
    CutHere(before, agent, rest, IndexOf(rest, '/'), at, name);
    StringBytes(before, agent, rest);
    var p := StrChr(t, agent, '/', rest);
    t[p] := '\0';
    assert t[..] == before[p := '\0'];
  }

  /**
   * The split at the start of trailMessageReceived and eventMessageReceived. The name
   * is located before the bytes move, and the move takes the slash from under it.
   */
  method SplitTopic(t: array<char>, ghost s: string) returns (agent: nat, name: nat)
    requires StringAt(t[..], 0, s) && TwoSlashes(s)
    modifies t
    ensures StringAt(t[..], agent, AgentOf(s)) && StringAt(t[..], name, NameOf(s))
  {
    hide StringAt, IndexOf, AfterFirst, TwoSlashes, AgentOf, NameOf, LastSlash, MemMoved;
    ghost var before, f, g := t[..], IndexOf(s, '/'), IndexOf(AfterFirst(s), '/');
    TopicFacts(s);
    SlashIn(s);
    name := StrRChr(t, s);
    agent := StrChr(t, 0, '/', s);
    SlashesMoved(before, s, f, f);
    SlashesMoved(before, s, f, name);
    var length := StrLen(t, agent, s[f..]);
    MemMove(t, agent, agent + 1, length);
    SlicedTwice(s, f, g);
    CutAgent(t, agent, AfterFirst(s), name, NameOf(s));
  }

  lemma SlashIn(s: string)
    requires TwoSlashes(s)
    ensures IndexOf(AfterFirst(s), '/') < |AfterFirst(s)|
  {
  }

  lemma SlicedTwice(s: string, f: nat, g: nat)
    requires f < |s| && f + 1 + g <= |s|
    ensures s[f + 1..][..g] == s[f + 1..f + 1 + g]
  {
  }
}
