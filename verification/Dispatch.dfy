/** Handler registration and message dispatch. */
module Dispatch {
  import opened Options
  import opened TopicMatch
  import opened Topics
  import opened Registry
  import B = Bytes
  import Heap
  import Payload

  /** VeidesHandler; the callback is one of two internal functions. */
  class Handler {
    const topic: Option<string>
    var callback: HandlerKind

    constructor (topic: Option<string>, callback: HandlerKind)
      ensures this.topic == topic && this.callback == callback
    {
      this.topic, this.callback := topic, callback;
    }
  }

  /** VeidesTrailHandler and VeidesEventHandler. */
  class NamedHandler {
    const name: Option<string>
    const agent: Option<string>
    var callback: Callback

    constructor (name: Option<string>, agent: Option<string>, callback: Callback)
      ensures this.name == name && this.agent == agent && this.callback == callback
    {
      this.name, this.agent, this.callback := name, agent, callback;
    }
  }

  /** VeidesHandlers */
  class Handlers {
    var entries: seq<Handler>

    constructor ()
      ensures entries == []
    {
      entries := [];
    }

    ghost predicate Valid()
      reads this
    {
      && (forall i, j | 0 <= i < j < |entries| :: entries[i] != entries[j])
      && forall i | 0 <= i < |entries| :: entries[i].topic.Some? ==> CText(entries[i].topic.value)
    }

    ghost function Rows(): (r: seq<Route>)
      reads this, entries
      ensures |r| == |entries| && forall i | 0 <= i < |r| :: r[i] == Route(entries[i].topic, entries[i].callback)
    {
      seq(|entries|, i requires 0 <= i < |entries| reads this, entries => Route(entries[i].topic, entries[i].callback))
    }

    /** veides_add_handler */
    method Add(handler: Handler, mem: Heap.Memory) returns (rc: Code)
      modifies this, mem`failures
      ensures (rc == SUCCESS && entries == old(entries) + [handler]) || (rc == NOMEM && entries == old(entries))
      ensures mem.failures == old(mem.failures) + if rc == SUCCESS then 0 else 1
    {
      var granted := mem.Grant();
      if !granted {
        return NOMEM;
      }
      entries := entries + [handler];
      rc := SUCCESS;
    }

    /** The search loop of setHandler and getHandler: the first filter that takes the topic. */
    method Find(topic: string) returns (i: nat)
      requires Valid() && CText(topic)
      ensures i == Routed(Rows(), topic)
    {
      hide Takes, CText;
      i := 0;
      while i < |entries|
        invariant i <= |entries|
        invariant forall k | 0 <= k < i :: !Handles(Route(entries[k].topic, entries[k].callback), topic)
      {
        var filter := entries[i].topic;
        if filter.Some? {
          var rc := Match(filter.value, topic);
          if rc == SUCCESS {
            break;
          }
        }
        i := i + 1;
      }
      RoutedIs(Rows(), i, topic);
    }

    /** The entry setHandler adds when it finds none. */
    method Append(topic: string, callback: HandlerKind, mem: Heap.Memory) returns (rc: Code, ghost lost: set<Loss>)
      requires Valid() && CText(topic)
      modifies this, mem`failures
      ensures Valid() && forall h | h in entries :: h in old(entries) || fresh(h)
      ensures rc == SUCCESS || rc == NOMEM
      ensures Rows() == old(Rows()) + if rc == SUCCESS then [Route(CopyOf(topic, TopicLost, lost), callback)] else []
      ensures lost <= {TopicLost} && mem.failures >= old(mem.failures)
      ensures mem.failures == old(mem.failures) ==> lost == {} && rc == SUCCESS
    {
      hide CText;
      var copy := Payload.StrDup(topic, mem);
      lost := if copy == None then {TopicLost} else {};
      var handler := new Handler(copy, callback);
      rc := Add(handler, mem);
    }

    method Update(i: nat, callback: HandlerKind)
      requires Valid() && i < |entries|
      modifies entries
      ensures Valid() && entries == old(entries)
      ensures Rows() == old(Rows())[i := old(Rows())[i].(kind := callback)]
    {
      hide CText;
      entries[i].callback := callback;
    }

    /** veides_sh_client_setHandler */
    method Set(topic: string, callback: HandlerKind, mem: Heap.Memory) returns (rc: Code, ghost lost: set<Loss>)
      requires Valid() && CText(topic)
      modifies this, entries, mem`failures
      ensures Valid() && forall h | h in entries :: h in old(entries) || fresh(h)
      ensures rc == NULL_PARAM <==> topic == ""
      ensures rc == SUCCESS || rc == NOMEM || rc == NULL_PARAM
      ensures Rows() == if rc == SUCCESS then SetRoute(old(Rows()), topic, callback, lost) else old(Rows())
      ensures lost <= {TopicLost} && mem.failures >= old(mem.failures)
      ensures mem.failures == old(mem.failures) ==> lost == {} && rc != NOMEM
    {
      hide Handles, CText, Rows, Valid;
      lost := {};
      if topic == "" {
        return NULL_PARAM, {};
      }
      var i := Find(topic);
      if i == |entries| {
        rc, lost := Append(topic, callback, mem);
        assert old(Rows()) + [] == old(Rows());
      } else {
        Update(i, callback);
        rc := SUCCESS;
      }
    }
  }

  /** VeidesTrailHandlers and VeidesEventHandlers */
  class NamedHandlers {
    var entries: seq<NamedHandler>

    constructor ()
      ensures entries == []
    {
      entries := [];
    }

    ghost predicate Valid()
      reads this
    {
      forall i, j | 0 <= i < j < |entries| :: entries[i] != entries[j]
    }

    ghost function Rows(): (r: seq<Row>)
      reads this, entries
      ensures |r| == |entries|
      ensures forall i | 0 <= i < |r| :: r[i] == Row(entries[i].name, entries[i].agent, entries[i].callback)
    {
      seq(|entries|, i requires 0 <= i < |entries| reads this, entries => Row(entries[i].name, entries[i].agent,
        entries[i].callback))
    }

    /** veides_add_trailHandler and veides_add_eventHandler */
    method Add(handler: NamedHandler, mem: Heap.Memory) returns (rc: Code)
      modifies this, mem`failures
      ensures (rc == SUCCESS && entries == old(entries) + [handler]) || (rc == NOMEM && entries == old(entries))
      ensures mem.failures == old(mem.failures) + if rc == SUCCESS then 0 else 1
    {
      var granted := mem.Grant();
      if !granted {
        return NOMEM;
      }
      entries := entries + [handler];
      rc := SUCCESS;
    }

    /** The entry they add when they find none. */
    method Append(agent: string, name: string, callback: Callback, mem: Heap.Memory)
      returns (rc: Code, ghost lost: set<Loss>)
      requires Valid()
      modifies this, mem`failures
      ensures Valid() && forall h | h in entries :: h in old(entries) || fresh(h)
      ensures rc == SUCCESS || rc == NOMEM
      ensures var row := Row(CopyOf(name, NameLost, lost), CopyOf(agent, AgentLost, lost), callback);
        Rows() == old(Rows()) + if rc == SUCCESS then [row] else []
      ensures lost <= {NameLost, AgentLost} && mem.failures >= old(mem.failures)
      ensures mem.failures == old(mem.failures) ==> lost == {} && rc == SUCCESS
    {
      var nameCopy := Payload.StrDup(name, mem);
      var agentCopy := Payload.StrDup(agent, mem);
      lost := (if nameCopy == None then {NameLost} else {}) + if agentCopy == None then {AgentLost} else {};
      var handler := new NamedHandler(nameCopy, agentCopy, callback);
      rc := Add(handler, mem);
    }

    /** veides_sh_client_setTrailHandler and veides_sh_client_setEventHandler */
    method Set(agent: string, name: string, callback: Callback, mem: Heap.Memory)
      returns (rc: Code, ghost lost: set<Loss>)
      requires Valid()
      modifies this, entries, mem`failures
      ensures Valid() && forall h | h in entries :: h in old(entries) || fresh(h)
      ensures rc == SUCCESS || rc == NOMEM
      ensures Rows() == if rc == SUCCESS then SetRow(old(Rows()), agent, name, callback, lost) else old(Rows())
      ensures lost <= {NameLost, AgentLost} && mem.failures >= old(mem.failures)
      ensures mem.failures == old(mem.failures) ==> lost == {} && rc == SUCCESS
    {
      lost := {};
      var i := 0;
      while i < |entries|
        invariant i <= |entries| && forall k | 0 <= k < i :: entries[k].name != Some(name)
      {
        if entries[i].name.Some? && entries[i].name.value == name {
          break;
        }
        i := i + 1;
      }
      LocateIs(Rows(), i, name);
      if i == |entries| {
        rc, lost := Append(agent, name, callback, mem);
        assert old(Rows()) + [] == old(Rows());
      } else {
        entries[i].callback := callback;
        rc := SUCCESS;
      }
    }

    /** veides_sh_client_getTrailHandler and veides_sh_client_getEventHandler */
    method Get(agent: string, name: string) returns (handler: NamedHandler?)
      requires Valid()
      ensures var cb := Lookup(Rows(), agent, name);
        if name == "" || cb == None then handler == null else handler != null && Some(handler.callback) == cb
    {
      if name == "" {
        return null;
      }
      var i := 0;
      while i < |entries|
        invariant i <= |entries|
        invariant forall k | 0 <= k < i :: entries[k].name != Some(name) || entries[k].agent != Some(agent)
      {
        if entries[i].name == Some(name) && entries[i].agent == Some(agent) {
          LookupFirst(Rows(), i, agent, name);
          return entries[i];
        }
        i := i + 1;
      }
      LookupNone(Rows(), agent, name);
      handler := null;
    }
  }

  lemma LookupFirst(rows: seq<Row>, i: nat, agent: string, name: string)
    requires i < |rows| && rows[i].name == Some(name) && rows[i].agent == Some(agent)
    requires forall k | 0 <= k < i :: rows[k].name != Some(name) || rows[k].agent != Some(agent)
    ensures Lookup(rows, agent, name) == Some(rows[i].callback)
  {
  }

  lemma LookupNone(rows: seq<Row>, agent: string, name: string)
    requires forall k | 0 <= k < |rows| :: rows[k].name != Some(name) || rows[k].agent != Some(agent)
    ensures Lookup(rows, agent, name) == None
  {
  }

  ghost predicate Disjoint(a: seq<NamedHandler>, b: seq<NamedHandler>) { forall h | h in a :: h !in b }

  /** A call of a callback, with the copy of the name and the message it is given. */
  datatype Delivery = Delivery(call: Invocation, name: Option<string>, message: Payload.Message)

  /** Nothing is delivered, or `full` with copies missing. */
  predicate Delivered(d: Option<Delivery>, full: Option<Delivery>) {
    d.Some? ==>
      && full.Some? && d.value.call == full.value.call
      && Payload.Thinner(d.value.name, full.value.name) && Payload.Thinned(d.value.message, full.value.message)
  }

  predicate GoodPayload(kind: Option<HandlerKind>, payload: B.Text) {
    && (kind == Some(TRAIL) ==> Payload.GoodTrail(payload))
    && (kind == Some(EVENT) ==> Payload.GoodEvent(payload))
  }

  function Decoded(kind: HandlerKind, payload: B.Text): Payload.Message
    requires Payload.Outcome(payload).Ok? && GoodPayload(Some(kind), payload)
  {
    match kind
    case TRAIL => Payload.TrailOf(payload)
    case EVENT => Payload.EventOf(payload)
  }

  /** What a message does after a run of registrations: nothing, or one call with the decoded payload. */
  ghost function Expected(run: seq<Reg>, topic: string, payload: B.Text): Option<Delivery>
    requires GoodPayload(RouteKind(run, topic), payload)
  {
    DispatchKind(run, topic);
    if Dispatch(run, topic) == None || Payload.Outcome(payload).Fail? then None
    else
      var call := Dispatch(run, topic).value;
      Some(Delivery(call, Some(call.name), Decoded(call.kind, payload)))
  }

  lemma {:induction false} DispatchKind(run: seq<Reg>, topic: string)
    ensures Dispatch(run, topic).Some? ==> RouteKind(run, topic) == Some(Dispatch(run, topic).value.kind)
    ensures Dispatch(run, topic) == if RouteKind(run, topic) == None then None else
      Invoke(RouteKind(run, topic).value, AgentOf(topic), NameOf(topic),
        Lookup(Table(run, RouteKind(run, topic).value), AgentOf(topic), NameOf(topic)))
  {
  }

  lemma {:induction false} RunStep(run: seq<Reg>, r: Reg, kind: HandlerKind)
    ensures Table(run + [r], kind) ==
      if r.kind == kind then SetRow(Table(run, kind), r.agent, r.name, r.callback, r.lost) else Table(run, kind)
    ensures Routes(run + [r]) ==
      if EntryLost in r.lost then Routes(run) else SetRoute(Routes(run), RegTopic(r), r.kind, r.lost)
  {
    assert (run + [r])[..|run|] == run;
  }

  /** The parts of VeidesStreamHubClientInternal that dispatch uses. */
  class Client {
    const handlers: Handlers
    const trailHandlers: NamedHandlers
    const eventHandlers: NamedHandlers
    /** The registrations so far. */
    ghost var run: seq<Reg>

    constructor ()
      ensures Valid() && run == []
    {
      handlers := new Handlers();
      trailHandlers := new NamedHandlers();
      eventHandlers := new NamedHandlers();
      run := [];
    }

    /** The tables are what the run of registrations makes of them. */
    ghost predicate Valid()
      reads this, handlers, trailHandlers, eventHandlers, handlers.entries, trailHandlers.entries, eventHandlers.entries
    {
      && trailHandlers != eventHandlers && handlers.Valid() && trailHandlers.Valid() && eventHandlers.Valid()
      && Disjoint(trailHandlers.entries, eventHandlers.entries)
      && NamedRun(run)
      && handlers.Rows() == Routes(run)
      && trailHandlers.Rows() == Table(run, TRAIL)
      && eventHandlers.Rows() == Table(run, EVENT)
    }

    /** The tables follow `rows`; the topic table follows `routes`. */
    ghost predicate TablesHold(routes: seq<Route>, trails: seq<Row>, events: seq<Row>)
      reads handlers, trailHandlers, eventHandlers, handlers.entries, trailHandlers.entries, eventHandlers.entries
    {
      && trailHandlers != eventHandlers && handlers.Valid() && trailHandlers.Valid() && eventHandlers.Valid()
      && Disjoint(trailHandlers.entries, eventHandlers.entries)
      && handlers.Rows() == routes && trailHandlers.Rows() == trails && eventHandlers.Rows() == events
    }

    /** The call into the trail or the event table. */
    method SetInTable(kind: HandlerKind, agent: string, name: string, callback: Callback, mem: Heap.Memory,
        ghost routes: seq<Route>, ghost trails: seq<Row>, ghost events: seq<Row>)
      returns (rc: Code, ghost lost: set<Loss>)
      requires TablesHold(routes, trails, events)
      modifies trailHandlers, eventHandlers, trailHandlers.entries, eventHandlers.entries, mem`failures
      ensures (rc == SUCCESS || rc == NOMEM) && run == old(run)
      ensures rc == NOMEM ==> TablesHold(routes, trails, events)
      ensures rc == SUCCESS && kind == TRAIL ==> TablesHold(routes, SetRow(trails, agent, name, callback, lost), events)
      ensures rc == SUCCESS && kind == EVENT ==> TablesHold(routes, trails, SetRow(events, agent, name, callback, lost))
      ensures forall h | h in trailHandlers.entries :: h in old(trailHandlers.entries) || fresh(h)
      ensures forall h | h in eventHandlers.entries :: h in old(eventHandlers.entries) || fresh(h)
      ensures lost <= {NameLost, AgentLost} && mem.failures >= old(mem.failures)
      ensures mem.failures == old(mem.failures) ==> lost == {} && rc == SUCCESS
    {
      hide SetRow, CText;
      match kind
      case TRAIL =>
        rc, lost := trailHandlers.Set(agent, name, callback, mem);
        forall i | 0 <= i < |eventHandlers.entries|
          ensures eventHandlers.entries[i].callback == old(eventHandlers.entries[i].callback)
        {
          assert eventHandlers.entries[i] !in old(trailHandlers.entries);
        }
        assert eventHandlers.Rows() == old(eventHandlers.Rows());
        assert handlers.Rows() == old(handlers.Rows());
        assert Disjoint(trailHandlers.entries, eventHandlers.entries);
      case EVENT =>
        rc, lost := eventHandlers.Set(agent, name, callback, mem);
        forall i | 0 <= i < |trailHandlers.entries|
          ensures trailHandlers.entries[i].callback == old(trailHandlers.entries[i].callback)
        {
          assert trailHandlers.entries[i] !in old(eventHandlers.entries);
        }
        assert trailHandlers.Rows() == old(trailHandlers.Rows());
        assert handlers.Rows() == old(handlers.Rows());
        assert Disjoint(trailHandlers.entries, eventHandlers.entries);
    }

    /** The copy of the topic and the call into the topic table; EntryLost says that nothing was stored. */
    method SetTopic(data: string, kind: HandlerKind, mem: Heap.Memory, ghost routes: seq<Route>, ghost trails: seq<Row>,
        ghost events: seq<Row>)
      returns (rc: Code, ghost lost: set<Loss>)
      requires TablesHold(routes, trails, events) && CText(data) && data != ""
      modifies handlers, handlers.entries, mem`failures
      ensures (rc == SUCCESS <==> EntryLost !in lost) && run == old(run)
      ensures TablesHold(if rc == SUCCESS then SetRoute(routes, data, kind, lost) else routes, trails, events)
      ensures lost <= {TopicLost, EntryLost} && mem.failures >= old(mem.failures)
      ensures mem.failures == old(mem.failures) ==> lost == {}
    {
      hide SetRoute, CText;
      var topic := Payload.StrDup(data, mem);
      if topic == None {
        return NULL_PARAM, {EntryLost};
      }
      rc, lost := handlers.Set(topic.value, kind, mem);
      if rc != SUCCESS {
        lost := {EntryLost};
      }
    }

    /** VeidesStreamHubClient_setTrailHandler and VeidesStreamHubClient_setEventHandler, by `kind`. */
    method SetNamedHandler(kind: HandlerKind, agent: string, name: string, callback: Callback, mem: Heap.Memory)
      returns (rc: Code, ghost lost: set<Loss>)
      requires Valid() && CText(agent) && CText(name)
      modifies this, handlers, trailHandlers, eventHandlers, mem`failures
      modifies handlers.entries, trailHandlers.entries, eventHandlers.entries
      ensures Valid() && mem.failures >= old(mem.failures)
      ensures agent == "" || name == "" ==> rc == NULL_PARAM && run == old(run) && mem.failures == old(mem.failures)
      ensures agent != "" && name != "" ==>
        || (run == old(run) && rc == NOMEM)
        || (run == old(run) + [Reg(kind, agent, name, callback, lost)] && (rc == SUCCESS <==> EntryLost !in lost))
      ensures agent != "" && name != "" && mem.failures == old(mem.failures) ==> rc == SUCCESS && lost == {}
    {
      hide CText, NamedRun, SetRow, SetRoute, Table, Routes, Topic, KindName, RegTopic, TablesHold;
      lost := {};
      if agent == "" || name == "" {
        return NULL_PARAM, {};
      }
      ghost var routes, trails, events := Routes(run), Table(run, TRAIL), Table(run, EVENT);
      HoldsRun();
      ghost var inTable, inTopics;
      rc, inTable := SetInTable(kind, agent, name, callback, mem, routes, trails, events);
      if rc != SUCCESS {
        HoldsRun();
        return;
      }
      if kind == TRAIL {
        trails := SetRow(trails, agent, name, callback, inTable);
      } else {
        assert kind == EVENT;
        events := SetRow(events, agent, name, callback, inTable);
      }
      BuiltText(kind, agent, name);
      var data := BuildTopicWithName(agent, KindName(kind), name);
      rc, inTopics := SetTopic(data, kind, mem, routes, trails, events);
      lost := inTable + inTopics;
      ghost var r := Reg(kind, agent, name, callback, lost);
      RowLosses(Table(run, kind), agent, name, callback, inTable, lost);
      RouteLosses(routes, data, kind, inTopics, lost);
      RunStep(run, r, TRAIL);
      RunStep(run, r, EVENT);
      TopicOfReg(r);
      NamedStep(run, r);
      run := run + [r];
      HoldsRun();
    }

    lemma HoldsRun()
      ensures Valid() <==> NamedRun(run) && TablesHold(Routes(run), Table(run, TRAIL), Table(run, EVENT))
    {
    }

    /**
     * messageArrived with trailMessageReceived and eventMessageReceived. Subscriptions
     * and callbacks leave the tables alone. A topic that reaches the split must have its
     * two slashes (see RoutedSlashes).
     */
    method MessageArrived(topicName: array<char>, payload: B.Text, mem: Heap.Memory, ghost topic: string)
      returns (rc: Code, invoked: Option<Delivery>)
      requires Valid() && StringAt(topicName[..], 0, topic) && GoodPayload(RouteKind(run, topic), payload)
      requires RouteKind(run, topic).Some? && Payload.Outcome(payload).Ok? ==> TwoSlashes(topic)
      modifies topicName, mem
      ensures Valid() && run == old(run)
      ensures rc == if RouteKind(run, topic) == None then HANDLER_NOT_FOUND else SUCCESS
      ensures Delivered(invoked, Expected(run, topic, payload)) && mem.failures >= old(mem.failures)
      ensures mem.failures == old(mem.failures) ==> invoked == Expected(run, topic, payload)
    {
      hide Table, Routes, Dispatch, Expected, Payload.GoodTrail, Payload.GoodEvent;
      invoked := None;
      ExpectedIs(run, topic, payload);
      if |handlers.entries| == 0 {
        return HANDLER_NOT_FOUND, None;
      }
      var name := ReadChars(topicName, 0, topic);
      var i := handlers.Find(name);
      if i == |handlers.entries| {
        return HANDLER_NOT_FOUND, None;
      }
      rc := SUCCESS;
      invoked := MessageReceived(handlers.entries[i].callback, topicName, payload, mem, topic);
    }

    method GetNamedHandler(kind: HandlerKind, agent: string, name: string) returns (handler: NamedHandler?)
      requires Valid()
      ensures var cb := Lookup(Table(run, kind), agent, name);
        if name == "" || cb == None then handler == null else handler != null && Some(handler.callback) == cb
    {
      match kind
      case TRAIL => handler := trailHandlers.Get(agent, name);
      case EVENT => handler := eventHandlers.Get(agent, name);
    }

    /** The second half of both: split the topic, look up the callback and call it with the message. */
    method CallHandler(kind: HandlerKind, topicName: array<char>, message: Payload.Message, mem: Heap.Memory,
        ghost topic: string)
      returns (invoked: Option<Delivery>)
      requires Valid() && StringAt(topicName[..], 0, topic) && TwoSlashes(topic)
      modifies topicName, mem`failures
      ensures Valid() && run == old(run) && mem.failures >= old(mem.failures)
      ensures var call := Found(run, kind, topic);
        && (invoked.Some? <==> call.Some?)
        && (call.Some? ==> invoked.value.call == call.value && invoked.value.message == message)
        && (call.Some? ==> Payload.Thinner(invoked.value.name, Some(call.value.name)))
        && (call.Some? && mem.failures == old(mem.failures) ==> invoked.value.name == Some(call.value.name))
    {
      hide Table, Routes, NamedRun, AgentOf, NameOf, IndexOf, AfterFirst, TwoSlashes, StringAt, Lookup;
      hide NamedHandlers.Rows, Handlers.Rows, NamedHandlers.Valid, Handlers.Valid;
      var a, n := SplitTopic(topicName, topic);
      var agent := ReadChars(topicName, a, AgentOf(topic));
      var name := ReadChars(topicName, n, NameOf(topic));
      var copy := Payload.StrDup(name, mem);
      var handler := GetNamedHandler(kind, agent, name);
      if handler == null {
        NoEmptyName(run, kind, agent);
        return None;
      }
      invoked := Some(Delivery(Invocation(kind, agent, name, handler.callback), copy, message));
    }

    method MessageReceived(kind: HandlerKind, topicName: array<char>, payload: B.Text, mem: Heap.Memory,
        ghost topic: string)
      returns (invoked: Option<Delivery>)
      requires Valid() && StringAt(topicName[..], 0, topic) && GoodPayload(Some(kind), payload)
      requires Payload.Outcome(payload).Ok? ==> TwoSlashes(topic)
      modifies topicName, mem
      ensures Valid() && run == old(run)
      ensures Delivered(invoked, Called(run, kind, topic, payload)) && mem.failures >= old(mem.failures)
      ensures mem.failures == old(mem.failures) ==> invoked == Called(run, kind, topic, payload)
    {
      hide Table, Routes, NamedRun, Payload.GoodTrail, Payload.GoodEvent, Payload.Outcome, Payload.TrailOf,
        Payload.EventOf, Payload.Thinned, AgentOf, NameOf, IndexOf, AfterFirst, TwoSlashes, StringAt, Lookup;
      hide NamedHandlers.Rows, Handlers.Rows, NamedHandlers.Valid, Handlers.Valid;
      var ok, message;
      ghost var kept;
      if kind == TRAIL {
        ok, message, kept := Payload.ReadTrail(payload, mem);
      } else {
        ok, message, kept := Payload.ReadEvent(payload, mem);
      }
      if !ok {
        return None;
      }
      invoked := CallHandler(kind, topicName, message, mem, topic);
    }
  }

  /** The call that the table of `kind` has for the parts of the topic. */
  function Found(run: seq<Reg>, kind: HandlerKind, topic: string): Option<Invocation> {
    Invoke(kind, AgentOf(topic), NameOf(topic), Lookup(Table(run, kind), AgentOf(topic), NameOf(topic)))
  }

  function Called(run: seq<Reg>, kind: HandlerKind, topic: string, payload: B.Text): Option<Delivery>
    requires GoodPayload(Some(kind), payload)
  {
    var call := Found(run, kind, topic);
    if call == None || Payload.Outcome(payload).Fail? then None
    else Some(Delivery(call.value, Some(call.value.name), Decoded(kind, payload)))
  }

  lemma ExpectedIs(run: seq<Reg>, topic: string, payload: B.Text)
    requires GoodPayload(RouteKind(run, topic), payload)
    ensures Expected(run, topic, payload) ==
      if RouteKind(run, topic) == None then None else Called(run, RouteKind(run, topic).value, topic, payload)
  {
    DispatchKind(run, topic);
  }

  lemma {:induction false} NoEmptyName(run: seq<Reg>, kind: HandlerKind, agent: string)
    requires NamedRun(run)
    ensures Lookup(Table(run, kind), agent, "") == None
  {
    TableLookup(run, kind, agent, "");
    FirstKeptIs(run, kind, "");
  }

  /** The tables look only at the losses of their own strings. */
  lemma RowLosses(rows: seq<Row>, agent: string, name: string, callback: Callback,
      lost: set<Loss>, all: set<Loss>)
    requires NameLost in lost <==> NameLost in all
    requires AgentLost in lost <==> AgentLost in all
    ensures SetRow(rows, agent, name, callback, lost) == SetRow(rows, agent, name, callback, all)
  {
  }

  lemma RouteLosses(routes: seq<Route>, topic: string, kind: HandlerKind,
      lost: set<Loss>, all: set<Loss>)
    requires TopicLost in lost <==> TopicLost in all
    ensures SetRoute(routes, topic, kind, lost) == SetRoute(routes, topic, kind, all)
  {
  }

  lemma TopicOfReg(r: Reg)
    ensures RegTopic(r) == Topic(r.agent, KindName(r.kind), r.name)
  {
  }

  /** Registrations have a name; that is all the client knows of them. */
  predicate NamedRun(run: seq<Reg>) { forall i | 0 <= i < |run| :: run[i].name != "" }

  lemma NamedStep(run: seq<Reg>, r: Reg)
    requires NamedRun(run) && r.name != ""
    ensures NamedRun(run + [r])
  {
  }

  lemma BuiltText(kind: HandlerKind, agent: string, name: string)
    requires CText(agent) && CText(name)
    ensures CText(Topic(agent, KindName(kind), name)) && Topic(agent, KindName(kind), name) != ""
  {
    var t, k := Topic(agent, KindName(kind), name), KindName(kind);
    forall i | 0 <= i < |t| ensures t[i] != '\0' { TopicChar(agent, k, name, i); }
  }

  /** The bytes of a C string in a buffer. */
  method ReadChars(t: array<char>, from: nat, ghost s: string) returns (r: string)
    requires StringAt(t[..], from, s)
    ensures r == s
  {
    StringBytes(t[..], from, s);
    r := "";
    while t[from + |r|] != '\0'
      invariant |r| <= |s| && r == s[..|r|] && (|r| < |s| ==> s[|r|] == t[from + |r|])
      decreases |s| - |r|
    {
      r := r + [t[from + |r|]];
    }
  }
}
