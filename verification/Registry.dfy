/**
 * What the handler tables hold after a run of registrations, and which callback a
 * message reaches.
 */
module Registry {
  import opened Options
  import opened TopicMatch
  import opened Topics

  type Callback = nat

  /** An entry of the trail or event table. A string is missing if strdup failed. */
  datatype Row = Row(name: Option<string>, agent: Option<string>, callback: Callback)
  /** An entry of the topic table; the stored function pointer is one of two. */
  datatype Route = Route(topic: Option<string>, kind: HandlerKind)

  /** The allocations of a registration that can fail and leave their mark. */
  datatype Loss = NameLost | AgentLost | TopicLost | EntryLost

  /**
   * A registration that reached its table. `lost` are the strings that strdup did not
   * copy; with EntryLost nothing was stored for the topic.
   */
  datatype Reg = Reg(kind: HandlerKind, agent: string, name: string, callback: Callback, lost: set<Loss>)

  function CopyOf(s: string, loss: Loss, lost: set<Loss>): Option<string> { if loss in lost then None else Some(s) }

  // ---- The tables: first match, overwrite in place, append otherwise.

  function Locate(rows: seq<Row>, name: string): (i: nat)
    ensures i <= |rows| && (i < |rows| ==> rows[i].name == Some(name))
    ensures forall k | 0 <= k < i :: rows[k].name != Some(name)
  {
    if rows == [] || rows[0].name == Some(name) then 0 else 1 + Locate(rows[1..], name)
  }

  /** The search of a registration looks at the name only; strings are copied for a new row. */
  function SetRow(rows: seq<Row>, agent: string, name: string, callback: Callback, lost: set<Loss>): seq<Row> {
    var i := Locate(rows, name);
    if i < |rows| then rows[i := rows[i].(callback := callback)]
    else rows + [Row(CopyOf(name, NameLost, lost), CopyOf(agent, AgentLost, lost), callback)]
  }

  function LocateBoth(rows: seq<Row>, agent: string, name: string): (i: nat)
    ensures i <= |rows| && (i < |rows| ==> rows[i].name == Some(name) && rows[i].agent == Some(agent))
    ensures forall k | 0 <= k < i :: rows[k].name != Some(name) || rows[k].agent != Some(agent)
  {
    if rows == [] || (rows[0].name == Some(name) && rows[0].agent == Some(agent)) then 0
    else 1 + LocateBoth(rows[1..], agent, name)
  }

  /** The search of a lookup looks at both. */
  function Lookup(rows: seq<Row>, agent: string, name: string): Option<Callback> {
    var i := LocateBoth(rows, agent, name);
    if i < |rows| then Some(rows[i].callback) else None
  }

  /** The entry has a topic which, taken as a filter, takes the text. */
  ghost predicate Handles(route: Route, topic: string) { route.topic.Some? && Takes(route.topic.value, topic) }

  ghost function Routed(routes: seq<Route>, topic: string): (i: nat)
    ensures i <= |routes| && (i < |routes| ==> Handles(routes[i], topic))
    ensures forall k | 0 <= k < i :: !Handles(routes[k], topic)
  {
    if routes == [] || Handles(routes[0], topic) then 0 else 1 + Routed(routes[1..], topic)
  }

  /** Registration and arrival search alike; an entry keeps the topic it was stored with. */
  ghost function SetRoute(routes: seq<Route>, topic: string, kind: HandlerKind, lost: set<Loss>): seq<Route> {
    var i := Routed(routes, topic);
    if i < |routes| then routes[i := routes[i].(kind := kind)]
    else routes + [Route(CopyOf(topic, TopicLost, lost), kind)]
  }

  lemma {:induction false} RoutedIs(routes: seq<Route>, i: nat, topic: string)
    requires i <= |routes| && (i < |routes| ==> Handles(routes[i], topic))
    requires forall k | 0 <= k < i :: !Handles(routes[k], topic)
    ensures Routed(routes, topic) == i
  {
  }

  // ---- Runs.

  function RegTopic(r: Reg): string { Topic(r.agent, KindName(r.kind), r.name) }

  function Table(run: seq<Reg>, kind: HandlerKind): seq<Row> {
    if run == [] then [] else
      var r, rows := run[|run| - 1], Table(run[..|run| - 1], kind);
      if r.kind == kind then SetRow(rows, r.agent, r.name, r.callback, r.lost) else rows
  }

  ghost function Routes(run: seq<Reg>): seq<Route> {
    if run == [] then [] else
      var r, routes := run[|run| - 1], Routes(run[..|run| - 1]);
      if EntryLost in r.lost then routes else SetRoute(routes, RegTopic(r), r.kind, r.lost)
  }

  datatype Invocation = Invocation(kind: HandlerKind, agent: string, name: string, callback: Callback)

  function Invoke(kind: HandlerKind, agent: string, name: string, cb: Option<Callback>): Option<Invocation> {
    if cb == None then None else Some(Invocation(kind, agent, name, cb.value))
  }

  /** What a message on `topic` does: route, split, look up. */
  ghost function Dispatch(run: seq<Reg>, topic: string): Option<Invocation> {
    var i := Routed(Routes(run), topic);
    if i == |Routes(run)| then None else
      var kind := Routes(run)[i].kind;
      Invoke(kind, AgentOf(topic), NameOf(topic), Lookup(Table(run, kind), AgentOf(topic), NameOf(topic)))
  }

  /** The kind of table a message on `topic` is looked up in. */
  ghost function RouteKind(run: seq<Reg>, topic: string): Option<HandlerKind> {
    var i := Routed(Routes(run), topic);
    if i < |Routes(run)| then Some(Routes(run)[i].kind) else None
  }

  // ---- What it should do, and what it does.

  /** The last callback registered for this kind, agent and name. */
  function Ideal(run: seq<Reg>, kind: HandlerKind, agent: string, name: string): Option<Callback> {
    if run == [] then None else
      var r := run[|run| - 1];
      if r.kind == kind && r.agent == agent && r.name == name then Some(r.callback)
      else Ideal(run[..|run| - 1], kind, agent, name)
  }

  /** The registration whose row every later one for the name finds: the first whose name was copied. */
  function FirstKept(run: seq<Reg>, kind: HandlerKind, name: string): Option<Reg> {
    if run == [] then None else
      var r, before := run[|run| - 1], FirstKept(run[..|run| - 1], kind, name);
      if before == None && r.kind == kind && r.name == name && NameLost !in r.lost then Some(r) else before
  }

  /** The agent that used the name first keeps it, if its own name was copied. */
  function FirstAgent(run: seq<Reg>, kind: HandlerKind, name: string): Option<string> {
    var first := FirstKept(run, kind, name);
    if first == None then None else CopyOf(first.value.agent, AgentLost, first.value.lost)
  }

  /** The last callback for the name that found a row or made one, whichever agent it was meant for. */
  function LastCallback(run: seq<Reg>, kind: HandlerKind, name: string): Option<Callback> {
    if run == [] then None else
      var r, before := run[|run| - 1], run[..|run| - 1];
      if r.kind == kind && r.name == name && (NameLost !in r.lost || FirstKept(before, kind, name).Some?)
      then Some(r.callback) else LastCallback(before, kind, name)
  }

  predicate Legal(s: string) { s != "" && CText(s) && NoSlash(s) && NoWild(s) }

  predicate LegalRun(run: seq<Reg>) { forall i | 0 <= i < |run| :: Legal(run[i].agent) && Legal(run[i].name) }

  /** Its topic stands in the topic table. */
  predicate TopicStored(r: Reg) { TopicLost !in r.lost && EntryLost !in r.lost }

  predicate Matches(r: Reg, kind: HandlerKind, agent: string, name: string) {
    r.kind == kind && r.agent == agent && r.name == name
  }

  predicate Linked(run: seq<Reg>, kind: HandlerKind, agent: string, name: string) {
    exists i | 0 <= i < |run| :: TopicStored(run[i]) && Matches(run[i], kind, agent, name)
  }

  predicate OneAgentPerName(run: seq<Reg>) {
    forall i, j | 0 <= i < |run| && 0 <= j < |run| && run[i].kind == run[j].kind && run[i].name == run[j].name ::
      run[i].agent == run[j].agent
  }

  predicate UniqueNames(rows: seq<Row>) {
    forall i, j | 0 <= i < j < |rows| :: rows[i].name.Some? ==> rows[i].name != rows[j].name
  }

  /** A row of a table is what the run made of its name. */
  lemma {:induction false} TableRow(run: seq<Reg>, kind: HandlerKind, name: string)
    ensures UniqueNames(Table(run, kind))
    ensures var rows, first := Table(run, kind), FirstKept(run, kind, name);
      var i := Locate(rows, name);
      && (i < |rows| <==> first.Some?) && (first.Some? <==> LastCallback(run, kind, name).Some?)
      && (first.Some? ==>
        rows[i].agent == FirstAgent(run, kind, name) && Some(rows[i].callback) == LastCallback(run, kind, name))
    decreases |run|
  {
    hide Locate, SetRow;
    if run != [] {
      var r, before := run[|run| - 1], run[..|run| - 1];
      TableRow(before, kind, name);
      if r.kind == kind {
        TableRow(before, kind, r.name);
        SetRowLocate(Table(before, kind), r.agent, r.name, r.callback, r.lost, name);
      }
    }
  }

  lemma {:induction false} SetRowLocate(rows: seq<Row>, agent: string, name: string, callback: Callback,
      lost: set<Loss>, other: string)
    requires UniqueNames(rows)
    ensures var rows' := SetRow(rows, agent, name, callback, lost);
      && UniqueNames(rows')
      && var i, i' := Locate(rows, other), Locate(rows', other);
      if other != name || (i == |rows| && NameLost in lost) then
        (i < |rows| <==> i' < |rows'|) && (i < |rows| ==> rows'[i'] == rows[i])
      else
        && i' < |rows'|
        && rows'[i'] == Row(Some(name), if i < |rows| then rows[i].agent else CopyOf(agent, AgentLost, lost), callback)
  {
    var rows' := SetRow(rows, agent, name, callback, lost);
    var k, i, i' := Locate(rows, name), Locate(rows, other), Locate(rows', other);
    assert forall n | 0 <= n < |rows| :: rows'[n].name == rows[n].name;
    if i < |rows| { LocateIs(rows', i, other); }
    if other == name && (k < |rows| || NameLost !in lost) { LocateIs(rows', k, other); }
  }

  lemma {:induction false} LocateIs(rows: seq<Row>, i: nat, name: string)
    requires i <= |rows| && (i < |rows| ==> rows[i].name == Some(name))
    requires forall k | 0 <= k < i :: rows[k].name != Some(name)
    ensures Locate(rows, name) == i
  {
  }

  /** With unique names the two searches meet on the row of the name. */
  lemma {:induction false} LookupIs(rows: seq<Row>, agent: string, name: string)
    requires UniqueNames(rows)
    ensures var i := Locate(rows, name);
      Lookup(rows, agent, name) == if i < |rows| && rows[i].agent == Some(agent) then Some(rows[i].callback) else None
  {
    var i, j := Locate(rows, name), LocateBoth(rows, agent, name);
    if j < |rows| { LocateIs(rows, j, name); }
  }

  lemma {:induction false} TableLookup(run: seq<Reg>, kind: HandlerKind, agent: string, name: string)
    ensures Lookup(Table(run, kind), agent, name) ==
      if FirstAgent(run, kind, name) == Some(agent) then LastCallback(run, kind, name) else None
  {
    TableRow(run, kind, name);
    LookupIs(Table(run, kind), agent, name);
  }

  /** The first row of a name is the one for good: if its agent was not copied, the name is never served again. */
  lemma {:induction false} LostForever(run: seq<Reg>, more: seq<Reg>, kind: HandlerKind, agent: string, name: string)
    requires FirstKept(run, kind, name).Some? && AgentLost in FirstKept(run, kind, name).value.lost
    ensures Lookup(Table(run + more, kind), agent, name) == None
  {
    hide FirstKept, Table, Lookup, LastCallback;
    KeptForGood(run, more, kind, name);
    TableLookup(run + more, kind, agent, name);
  }

  lemma {:induction false} KeptForGood(run: seq<Reg>, more: seq<Reg>, kind: HandlerKind, name: string)
    requires FirstKept(run, kind, name).Some?
    ensures FirstKept(run + more, kind, name) == FirstKept(run, kind, name)
    decreases |more|
  {
    if more == [] {
      assert run + more == run;
    } else {
      var before := more[..|more| - 1];
      KeptForGood(run, before, kind, name);
      assert (run + more)[..|run + more| - 1] == run + before;
    }
  }

  /** The kind of the last registration for a topic that found an entry or made one. */
  function LastKind(run: seq<Reg>, topic: string): Option<HandlerKind> {
    if run == [] then None else
      var r, before := run[|run| - 1], LastKind(run[..|run| - 1], topic);
      if RegTopic(r) == topic && EntryLost !in r.lost && (TopicLost !in r.lost || before.Some?) then Some(r.kind)
      else before
  }

  predicate UniqueTopics(routes: seq<Route>) {
    forall i, j | 0 <= i < j < |routes| :: routes[i].topic.Some? ==> routes[i].topic != routes[j].topic
  }

  /** What legal registrations store: plain texts with an agent part and a name part. */
  predicate Routable(t: string) {
    t != "" && CText(t) && NoWild(t) && !Starts(t, '$') && TwoSlashes(t)
  }

  lemma BuiltRoutable(kind: HandlerKind, agent: string, name: string)
    requires Legal(agent) && Legal(name)
    ensures Routable(Topic(agent, KindName(kind), name))
  {
    var t, k := Topic(agent, KindName(kind), name), KindName(kind);
    BuiltSlashes(agent, k, name);
    forall i | 0 <= i < |t| ensures t[i] != '\0' && !IsWild(t[i]) { TopicChar(agent, k, name, i); }
  }

  lemma BuiltSlashes(agent: string, kind: string, name: string)
    requires NoSlash(agent)
    ensures TwoSlashes(Topic(agent, kind, name))
  {
    var rest := agent + ("/" + (kind + ("/" + name)));
    var t := "agent" + ("/" + rest);
    assert Topic(agent, kind, name) == t;
    FirstAppend("agent", rest, '/');
    assert AfterFirst(t) == rest;
    FirstAppend(agent, kind + ("/" + name), '/');
  }

  lemma TopicChar(agent: string, kind: string, name: string, i: nat)
    requires i < |Topic(agent, kind, name)|
    ensures var c := Topic(agent, kind, name)[i]; c in "agent/" || c in agent || c == '/' || c in kind || c in name
  {
  }

  predicate AllRoutable(routes: seq<Route>) {
    forall i | 0 <= i < |routes| :: routes[i].topic.Some? ==> Routable(routes[i].topic.value)
  }

  function LocateTopic(routes: seq<Route>, topic: string): (i: nat)
    ensures i <= |routes| && (i < |routes| ==> routes[i].topic == Some(topic))
    ensures forall k | 0 <= k < i :: routes[k].topic != Some(topic)
  {
    if routes == [] || routes[0].topic == Some(topic) then 0 else 1 + LocateTopic(routes[1..], topic)
  }

  /** The first entry with a topic. */
  function FirstLive(routes: seq<Route>): (i: nat)
    ensures i <= |routes| && (i < |routes| ==> routes[i].topic.Some?)
    ensures forall k | 0 <= k < i :: routes[k].topic == None
  {
    if routes == [] || routes[0].topic.Some? then 0 else 1 + FirstLive(routes[1..])
  }

  /** A message goes to the entry of its topic, or to the first of all when it starts with `$`. */
  lemma {:induction false} RoutedPlain(routes: seq<Route>, topic: string)
    requires AllRoutable(routes)
    ensures Routed(routes, topic) == if Starts(topic, '$') then FirstLive(routes) else LocateTopic(routes, topic)
  {
    hide Takes, TwoSlashes;
    forall i | 0 <= i < |routes|
      ensures Handles(routes[i], topic) <==>
        routes[i].topic.Some? && (Starts(topic, '$') || routes[i].topic == Some(topic))
    {
      if routes[i].topic.Some? { TakesRoutable(routes[i].topic.value, topic); }
    }
    RoutedIs(routes, if Starts(topic, '$') then FirstLive(routes) else LocateTopic(routes, topic), topic);
  }

  lemma TakesRoutable(f: string, t: string)
    requires Routable(f)
    ensures Takes(f, t) <==> Starts(t, '$') || f == t
  {
    if t != "" { PlainTakes(f, t); }
  }

  lemma {:induction false} RouteLocate(run: seq<Reg>, topic: string)
    requires LegalRun(run)
    ensures AllRoutable(Routes(run)) && UniqueTopics(Routes(run))
    ensures var i := LocateTopic(Routes(run), topic);
      LastKind(run, topic) == if i < |Routes(run)| then Some(Routes(run)[i].kind) else None
    decreases |run|
  {
    hide Handles, Topic, Routable, Legal, SetRoute, LocateTopic;
    if run != [] {
      var r, before := run[|run| - 1], run[..|run| - 1];
      assert forall i | 0 <= i < |before| :: before[i] == run[i];
      RouteLocate(before, topic);
      if EntryLost !in r.lost {
        BuiltRoutable(r.kind, r.agent, r.name);
        BuiltPlain(r);
        RoutedPlain(Routes(before), RegTopic(r));
        SetRouteLocate(Routes(before), RegTopic(r), r.kind, r.lost, topic);
      }
    }
  }

  lemma BuiltPlain(r: Reg)
    ensures !Starts(RegTopic(r), '$') && RegTopic(r) == Topic(r.agent, KindName(r.kind), r.name)
  {
  }

  lemma {:induction false} SetRouteLocate(routes: seq<Route>, topic: string, kind: HandlerKind, lost: set<Loss>,
      other: string)
    requires UniqueTopics(routes) && Routed(routes, topic) == LocateTopic(routes, topic)
    requires AllRoutable(routes) && Routable(topic)
    ensures var routes' := SetRoute(routes, topic, kind, lost);
      && UniqueTopics(routes') && AllRoutable(routes')
      && var i, i' := LocateTopic(routes, other), LocateTopic(routes', other);
      if other != topic || (i == |routes| && TopicLost in lost) then
        (i < |routes| <==> i' < |routes'|) && (i < |routes| ==> routes'[i'] == routes[i])
      else i' < |routes'| && routes'[i'] == Route(Some(topic), kind)
  {
    hide Handles, Routable;
    var routes' := SetRoute(routes, topic, kind, lost);
    var k, i := LocateTopic(routes, topic), LocateTopic(routes, other);
    assert forall n | 0 <= n < |routes| :: routes'[n].topic == routes[n].topic;
    if i < |routes| { LocateTopicIs(routes', i, other); }
    if other == topic && (k < |routes| || TopicLost !in lost) { LocateTopicIs(routes', k, other); }
  }

  lemma {:induction false} LocateTopicIs(routes: seq<Route>, i: nat, topic: string)
    requires i <= |routes| && (i < |routes| ==> routes[i].topic == Some(topic))
    requires forall k | 0 <= k < i :: routes[k].topic != Some(topic)
    ensures LocateTopic(routes, topic) == i
  {
  }

  lemma TopicInjective(k1: HandlerKind, a1: string, n1: string,
      k2: HandlerKind, a2: string, n2: string)
    requires NoSlash(a1) && NoSlash(n1) && NoSlash(a2) && NoSlash(n2)
    requires Topic(a1, KindName(k1), n1) == Topic(a2, KindName(k2), n2)
    ensures k1 == k2 && a1 == a2 && n1 == n2
  {
    SplitBuild(a1, KindName(k1), n1);
    SplitBuild(a2, KindName(k2), n2);
    assert Topic(a1, KindName(k1), n1)[6 + |a1| + 1] == KindName(k1)[0];
    assert Topic(a2, KindName(k2), n2)[6 + |a2| + 1] == KindName(k2)[0];
  }

  lemma LinkedStep(run: seq<Reg>, kind: HandlerKind, agent: string, name: string)
    requires run != []
    ensures var r, before := run[|run| - 1], run[..|run| - 1];
      Linked(run, kind, agent, name) <==>
        Linked(before, kind, agent, name) || (TopicStored(r) && Matches(r, kind, agent, name))
  {
    var before := run[..|run| - 1];
    assert forall i | 0 <= i < |before| :: before[i] == run[i];
    if Linked(before, kind, agent, name) {
      var i :| 0 <= i < |before| && TopicStored(before[i]) && Matches(before[i], kind, agent, name);
      assert TopicStored(run[i]) && Matches(run[i], kind, agent, name);
    }
  }

  lemma {:induction false} LinkedKind(run: seq<Reg>, kind: HandlerKind, agent: string, name: string)
    requires LegalRun(run) && Legal(agent) && Legal(name)
    ensures LastKind(run, Topic(agent, KindName(kind), name)) ==
      if Linked(run, kind, agent, name) then Some(kind) else None
    decreases |run|
  {
    hide Legal, Linked, RegTopic, Topic, KindName;
    if run != [] {
      var r, before := run[|run| - 1], run[..|run| - 1];
      assert forall i | 0 <= i < |before| :: before[i] == run[i];
      LinkedKind(before, kind, agent, name);
      LinkedStep(run, kind, agent, name);
      SameTopic(r, kind, agent, name);
    } else {
      NothingLinked(kind, agent, name);
    }
  }

  lemma NothingLinked(kind: HandlerKind, agent: string, name: string)
    ensures !Linked([], kind, agent, name)
  {
  }

  lemma SameTopic(r: Reg, kind: HandlerKind, agent: string, name: string)
    requires Legal(r.agent) && Legal(r.name) && Legal(agent) && Legal(name)
    ensures RegTopic(r) == Topic(agent, KindName(kind), name) <==> Matches(r, kind, agent, name)
  {
    hide Topic, KindName;
    if RegTopic(r) == Topic(agent, KindName(kind), name) {
      TopicInjective(r.kind, r.agent, r.name, kind, agent, name);
    }
  }

  /**
   * What a message on any topic invokes after any registrations: the kind is that of the
   * first stored topic that takes it, and there the first agent of its name is served.
   */
  lemma {:induction false} DispatchAny(run: seq<Reg>, topic: string)
    ensures var kind, agent, name := RouteKind(run, topic), AgentOf(topic), NameOf(topic);
      Dispatch(run, topic) ==
        if kind.Some? && FirstAgent(run, kind.value, name) == Some(agent)
        then Invoke(kind.value, agent, name, LastCallback(run, kind.value, name)) else None
  {
    hide Routes, Routed, AgentOf, NameOf, FirstAgent, LastCallback, Table;
    var kind := RouteKind(run, topic);
    if kind.Some? { TableLookup(run, kind.value, AgentOf(topic), NameOf(topic)); }
  }

  /** Exactly what a message on the topic of (kind, agent, name) invokes after any run. */
  lemma {:induction false} DispatchExact(run: seq<Reg>, kind: HandlerKind, agent: string, name: string)
    requires LegalRun(run) && Legal(agent) && Legal(name)
    ensures Dispatch(run, Topic(agent, KindName(kind), name)) ==
      if Linked(run, kind, agent, name) && FirstAgent(run, kind, name) == Some(agent)
      then Invoke(kind, agent, name, LastCallback(run, kind, name)) else None
  {
    hide Takes;
    var topic := Topic(agent, KindName(kind), name);
    RouteLocate(run, topic);
    RoutedPlain(Routes(run), topic);
    LinkedKind(run, kind, agent, name);
    SplitBuild(agent, KindName(kind), name);
    TableLookup(run, kind, agent, name);
    TableRow(run, kind, name);
  }

  /** The first registration whose topic was stored. */
  function FirstLinked(run: seq<Reg>): Option<Reg> {
    if run == [] then None else
      var r, before := run[|run| - 1], FirstLinked(run[..|run| - 1]);
      if before == None && TopicStored(r) then Some(r) else before
  }

  /** It heads the topic table for good. */
  lemma {:induction false} FirstRoute(run: seq<Reg>)
    requires LegalRun(run)
    ensures var first, i := FirstLinked(run), FirstLive(Routes(run));
      && (first == None <==> i == |Routes(run)|)
      && (first.Some? ==> Routes(run)[i] == Route(Some(RegTopic(first.value)), first.value.kind))
      && (first.Some? ==> Legal(first.value.agent) && Legal(first.value.name))
    decreases |run|
  {
    hide Legal, RegTopic, Handles, AllRoutable, UniqueTopics;
    if run != [] {
      var r, before := run[|run| - 1], run[..|run| - 1];
      assert forall i | 0 <= i < |before| :: before[i] == run[i];
      FirstRoute(before);
      var first := FirstLinked(before);
      if EntryLost !in r.lost {
        RouteLocate(before, RegTopic(r));
        BuiltPlain(r);
        RoutedPlain(Routes(before), RegTopic(r));
        SetRouteLive(Routes(before), RegTopic(r), r.kind, r.lost);
        if first.Some? && RegTopic(r) == RegTopic(first.value) {
          BuiltPlain(first.value);
          SameTopic(r, first.value.kind, first.value.agent, first.value.name);
        }
      }
    }
  }

  lemma {:induction false} SetRouteLive(routes: seq<Route>, topic: string, kind: HandlerKind, lost: set<Loss>)
    requires Routed(routes, topic) == LocateTopic(routes, topic)
    ensures var routes', i := SetRoute(routes, topic, kind, lost), FirstLive(routes);
      var i' := FirstLive(routes');
      if i < |routes| then
        i' == i && routes'[i] == if routes[i].topic == Some(topic) then Route(Some(topic), kind) else routes[i]
      else if TopicLost in lost then i' == |routes'|
      else i' == |routes| < |routes'| && routes'[i'] == Route(Some(topic), kind)
  {
    hide Handles;
    var routes', i := SetRoute(routes, topic, kind, lost), FirstLive(routes);
    assert forall n | 0 <= n < |routes| :: routes'[n].topic == routes[n].topic;
    FirstLiveIs(routes', if i < |routes| then i else if TopicLost in lost then |routes'| else |routes|);
  }

  lemma {:induction false} FirstLiveIs(routes: seq<Route>, i: nat)
    requires i <= |routes| && (i < |routes| ==> routes[i].topic.Some?)
    requires forall k | 0 <= k < i :: routes[k].topic == None
    ensures FirstLive(routes) == i
  {
  }

  /** A `$` topic whose parts are served in the table of the first stored registration. */
  predicate Stray(run: seq<Reg>, topic: string) {
    var first := FirstLinked(run);
    Starts(topic, '$') && first.Some?
      && FirstAgent(run, first.value.kind, NameOf(topic)) == Some(AgentOf(topic))
  }

  /** A topic nobody registered invokes nothing, unless it is a stray `$` topic. */
  lemma {:induction false} UnregisteredTopic(run: seq<Reg>, topic: string)
    requires LegalRun(run) && forall i | 0 <= i < |run| :: RegTopic(run[i]) != topic
    ensures Dispatch(run, topic).Some? <==> Stray(run, topic)
    ensures Stray(run, topic) ==>
      var kind, agent, name := FirstLinked(run).value.kind, AgentOf(topic), NameOf(topic);
      Dispatch(run, topic) == Invoke(kind, agent, name, LastCallback(run, kind, name))
  {
    hide AgentOf, NameOf, Routes, RegTopic, FirstLinked, FirstKept, LastCallback, Table, LegalRun;
    hide Takes, AllRoutable;
    RouteLocate(run, topic);
    RoutedPlain(Routes(run), topic);
    if Starts(topic, '$') {
      FirstRoute(run);
      if FirstLinked(run).Some? {
        var kind := FirstLinked(run).value.kind;
        TableLookup(run, kind, AgentOf(topic), NameOf(topic));
        TableRow(run, kind, NameOf(topic));
      }
    } else {
      NoKind(run, topic);
    }
  }

  /** One registration, and a topic that is not its own. */
  lemma StrayReaches(cb: Callback)
    ensures var run, topic := [Reg(TRAIL, "a", "t", cb, {})], "$x/a/y/t";
      LegalRun(run) && RegTopic(run[0]) != topic && Dispatch(run, topic) == Some(Invocation(TRAIL, "a", "t", cb))
  {
    hide AgentOf, NameOf, Dispatch, RegTopic, Topic, FirstAgent, LastCallback, FirstLinked;
    var r, topic := Reg(TRAIL, "a", "t", cb, {}), "$x/a/y/t";
    var run := [r];
    OneReg(r);
    StrayParts();
    DollarUnbuilt(r, topic);
    assert Legal("a") && Legal("t");
    UnregisteredTopic(run, topic);
  }

  lemma OneReg(r: Reg)
    requires r.lost == {}
    ensures FirstLinked([r]) == Some(r)
    ensures FirstAgent([r], r.kind, r.name) == Some(r.agent) && LastCallback([r], r.kind, r.name) == Some(r.callback)
  {
    var run := [r];
    assert run[..|run| - 1] == [] && run[|run| - 1] == r;
    assert FirstKept(run, r.kind, r.name) == Some(r);
  }

  /** No built topic starts with `$`. */
  lemma DollarUnbuilt(r: Reg, topic: string)
    requires Starts(topic, '$')
    ensures RegTopic(r) != topic
  {
  }

  lemma StrayParts()
    ensures AgentOf("$x/a/y/t") == "a" && NameOf("$x/a/y/t") == "t"
  {
    hide IndexOf, AgentOf, NameOf, AfterFirst;
    FirstAppend("$x", "a/y/t", '/');
    FirstAppend("a", "y/t", '/');
    assert "$x/a/y/t" == "$x" + ("/" + "a/y/t") && "a/y/t" == "a" + ("/" + "y/t") && "y/t" == "y" + ("/" + "t");
    NameStep("$x", "a/y/t");
    NameStep("a", "y/t");
    NameStep("y", "t");
    NameIsPlain("t");
    StrayAgent("$x/a/y/t");
  }

  lemma {:induction false} StrayAgent(s: string)
    requires s == "$x/a/y/t" && IndexOf(s, '/') == 2 && IndexOf("a/y/t", '/') == 1
    ensures AgentOf(s) == "a"
  {
    assert s[3..] == "a/y/t" && s[3..][..1] == "a";
  }

  /** After legal registrations only a `$` topic can reach the split without its two slashes. */
  lemma RoutedSlashes(run: seq<Reg>, topic: string)
    requires LegalRun(run) && RouteKind(run, topic).Some? && !Starts(topic, '$')
    ensures TwoSlashes(topic)
  {
    hide Takes, TwoSlashes, LegalRun;
    RouteLocate(run, topic);
    RoutedPlain(Routes(run), topic);
  }

  lemma {:induction false} NoKind(run: seq<Reg>, topic: string)
    requires forall i | 0 <= i < |run| :: RegTopic(run[i]) != topic
    ensures LastKind(run, topic) == None
    decreases |run|
  {
    if run != [] {
      var before := run[..|run| - 1];
      assert forall i | 0 <= i < |before| :: RegTopic(before[i]) == RegTopic(run[i]);
      NoKind(before, topic);
    }
  }

  /** No allocation failed. */
  predicate NothingLost(run: seq<Reg>) { forall i | 0 <= i < |run| :: run[i].lost == {} }

  function Wanted(run: seq<Reg>, kind: HandlerKind, agent: string, name: string): Option<Invocation> {
    Invoke(kind, agent, name, Ideal(run, kind, agent, name))
  }

  ghost predicate Faithful(run: seq<Reg>) {
    forall agent, name | Legal(agent) && Legal(name) ::
      && Dispatch(run, "agent/" + agent + "/trail/" + name) == Wanted(run, TRAIL, agent, name)
      && Dispatch(run, "agent/" + agent + "/event/" + name) == Wanted(run, EVENT, agent, name)
  }

  lemma {:induction false} FirstKeptIs(run: seq<Reg>, kind: HandlerKind, name: string)
    ensures var f := FirstKept(run, kind, name);
      if f.Some? then exists i | 0 <= i < |run| :: run[i] == f.value && run[i].kind == kind && run[i].name == name
      else forall i | 0 <= i < |run| :: run[i].kind == kind && run[i].name == name ==> NameLost in run[i].lost
    decreases |run|
  {
    if run != [] {
      var r, before := run[|run| - 1], run[..|run| - 1];
      FirstKeptIs(before, kind, name);
      var f := FirstKept(before, kind, name);
      if f.Some? {
        var i :| 0 <= i < |before| && before[i] == f.value && before[i].kind == kind && before[i].name == name;
        assert run[i] == before[i];
      } else {
        assert forall i | 0 <= i < |before| :: run[i] == before[i];
        assert run[|run| - 1] == r;
      }
    }
  }

  lemma {:induction false} IdealIs(run: seq<Reg>, kind: HandlerKind, agent: string, name: string)
    ensures Ideal(run, kind, agent, name).Some? <==>
      exists i | 0 <= i < |run| :: run[i].kind == kind && run[i].agent == agent && run[i].name == name
    decreases |run|
  {
    if run != [] {
      var r, before := run[|run| - 1], run[..|run| - 1];
      IdealIs(before, kind, agent, name);
      assert forall i | 0 <= i < |before| :: run[i] == before[i];
      assert run[|run| - 1] == r;
      if Ideal(before, kind, agent, name).Some? {
        var i :| 0 <= i < |before| && before[i].kind == kind && before[i].agent == agent && before[i].name == name;
        assert run[i] == before[i];
      }
    }
  }

  /** While one agent uses a name, its last callback is the agent's last callback. */
  lemma {:induction false} LastIsIdeal(run: seq<Reg>, kind: HandlerKind, agent: string, name: string)
    requires NothingLost(run)
    requires forall i | 0 <= i < |run| && run[i].kind == kind && run[i].name == name :: run[i].agent == agent
    ensures LastCallback(run, kind, name) == Ideal(run, kind, agent, name)
    decreases |run|
  {
    if run != [] {
      var before := run[..|run| - 1];
      assert forall i | 0 <= i < |before| :: run[i] == before[i];
      LastIsIdeal(before, kind, agent, name);
    }
  }

  /**
   * End-to-end dispatch: after a run of registrations every message reaches exactly the
   * last callback registered for its agent and name, and unregistered ones none, if and
   * only if no name is used with two agents in the same table.
   */
  lemma DispatchFaithful(run: seq<Reg>)
    requires LegalRun(run) && NothingLost(run)
    ensures Faithful(run) <==> OneAgentPerName(run)
  {
    if OneAgentPerName(run) {
      forall agent, name | Legal(agent) && Legal(name)
        ensures Dispatch(run, "agent/" + agent + "/trail/" + name) == Wanted(run, TRAIL, agent, name)
        ensures Dispatch(run, "agent/" + agent + "/event/" + name) == Wanted(run, EVENT, agent, name)
      {
        TopicSpelled(agent, name);
        OneAgentDispatch(run, TRAIL, agent, name);
        OneAgentDispatch(run, EVENT, agent, name);
      }
    } else {
      var i, j :| 0 <= i < |run| && 0 <= j < |run|
        && run[i].kind == run[j].kind && run[i].name == run[j].name && run[i].agent != run[j].agent;
      TwoAgents(run, i);
      TwoAgents(run, j);
    }
  }

  lemma OneAgentDispatch(run: seq<Reg>, kind: HandlerKind, agent: string, name: string)
    requires LegalRun(run) && NothingLost(run) && OneAgentPerName(run) && Legal(agent) && Legal(name)
    ensures Dispatch(run, Topic(agent, KindName(kind), name)) == Wanted(run, kind, agent, name)
  {
    DispatchExact(run, kind, agent, name);
    FirstKeptIs(run, kind, name);
    IdealIs(run, kind, agent, name);
    TableRow(run, kind, name);
    if FirstAgent(run, kind, name) == Some(agent) {
      LastIsIdeal(run, kind, agent, name);
    }
  }

  /** A faithful table serves the agent of every registration. */
  lemma TwoAgents(run: seq<Reg>, i: nat)
    requires LegalRun(run) && i < |run|
    ensures Faithful(run) ==> FirstAgent(run, run[i].kind, run[i].name) == Some(run[i].agent)
  {
    var r := run[i];
    TopicSpelled(r.agent, r.name);
    DispatchExact(run, r.kind, r.agent, r.name);
    IdealIs(run, r.kind, r.agent, r.name);
    if Faithful(run) {
      assert Dispatch(run, Topic(r.agent, KindName(r.kind), r.name)) == Wanted(run, r.kind, r.agent, r.name);
    }
  }

  // ---- The same with the topics spelled out.

  lemma LegalSpelled(s: string)
    ensures Legal(s) <==> s != "" && forall i | 0 <= i < |s| :: s[i] !in "/+#\0"
  {
    assert "/+#\0"[0] == '/' && "/+#\0"[1] == '+' && "/+#\0"[2] == '#' && "/+#\0"[3] == '\0';
  }

  /**
   * A message on `agent/A/trail/N` reaches the last trail callback registered for A and
   * N, and one on `agent/A/event/N` the last event callback.
   */
  lemma {:induction false} TopicsServed(run: seq<Reg>, agent: string, name: string)
    requires LegalRun(run) && NothingLost(run) && OneAgentPerName(run) && Legal(agent) && Legal(name)
    ensures Dispatch(run, "agent/" + agent + "/trail/" + name) == match Ideal(run, TRAIL, agent, name)
      case None => None
      case Some(cb) => Some(Invocation(TRAIL, agent, name, cb))
    ensures Dispatch(run, "agent/" + agent + "/event/" + name) == match Ideal(run, EVENT, agent, name)
      case None => None
      case Some(cb) => Some(Invocation(EVENT, agent, name, cb))
  {
    hide Dispatch, Topic, KindName, Ideal, Legal, LegalRun, OneAgentPerName, NothingLost;
    TopicSpelled(agent, name);
    OneAgentDispatch(run, TRAIL, agent, name);
    OneAgentDispatch(run, EVENT, agent, name);
  }

  /** A registration whose topic was stored has its entry in the topic table. */
  lemma {:induction false} TopicsStored(run: seq<Reg>, r: Reg)
    requires LegalRun(run) && Legal(r.agent) && Legal(r.name) && TopicStored(r)
    ensures r.kind == TRAIL ==> Route(Some("agent/" + r.agent + "/trail/" + r.name), TRAIL) in Routes(run + [r])
    ensures r.kind == EVENT ==> Route(Some("agent/" + r.agent + "/event/" + r.name), EVENT) in Routes(run + [r])
  {
    hide Topic, KindName, Legal, Routes;
    TopicSpelled(r.agent, r.name);
    var more := run + [r];
    assert more[..|more| - 1] == run;
    RouteLocate(more, RegTopic(r));
  }
}
