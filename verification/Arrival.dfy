/** Printed values as payloads: what a callback is given of them. */
module Arrival {
  import opened Options
  import opened TopicMatch
  import opened Topics
  import opened Registry
  import opened Dispatch
  import opened Json
  import opened Payload
  import B = Bytes
  import Heap
  import Literals
  import ParseSpec
  import PrintSpec

  lemma {:induction false} PrintedOutcome(t: Tree, fmt: bool)
    requires Plain(t) && NestsWithin(t, 1000)
    ensures Outcome(PrintSpec.Print(t, fmt, 0)) == ParseSpec.Ok(t, |PrintSpec.Print(t, fmt, 0)|)
  {
    hide ParseSpec.ParseText, Plain, NestsWithin, PrintSpec.Print, Outcome;
    var s := PrintSpec.Print(t, fmt, 0);
    WholePayload(s);
    Literals.ParsedBetween(t, fmt, [], [], [], false);
    assert [] + ([] + (s + ([] + [B.NUL]))) == s + [B.NUL];
  }

  /** The topic of a legal agent and name is looked up in the table of its kind, if at all. */
  lemma TopicKind(run: seq<Reg>, kind: HandlerKind, agent: string, name: string)
    requires LegalRun(run) && Legal(agent) && Legal(name)
    ensures var topic := Topic(agent, KindName(kind), name);
      && RouteKind(run, topic) == (if Linked(run, kind, agent, name) then Some(kind) else None)
      && TwoSlashes(topic)
  {
    hide Takes, Legal, LegalRun, Linked, TwoSlashes, Topic, KindName, AllRoutable;
    var topic := Topic(agent, KindName(kind), name);
    BuiltRoutable(kind, agent, name);
    RouteLocate(run, topic);
    RoutedPlain(Routes(run), topic);
    LinkedKind(run, kind, agent, name);
  }

  lemma StringFound(t: Tree, key: string, s: B.Text)
    requires (forall k :: 0 <= k < |key| ==> key[k] as int < 128) && StringArrives(t, key, s)
    ensures HasString(t, B.Ascii(key)) && StringOf(t, B.Ascii(key)) == s
  {
    var i: nat :| FirstMember(t.members, key, i) && t.members[i].value == Str(s);
    FindFirst(t.members, key, i);
  }

  /** Such messages are in the domain of MessageArrived, whatever was lost of the registrations. */
  lemma {:induction false} TrailAcceptable(run: seq<Reg>, agent: string, name: string, t: Tree, fmt: bool,
      timestamp: B.Text)
    requires LegalRun(run) && Legal(agent) && Legal(name)
    requires Plain(t) && NestsWithin(t, 1000) && StringArrives(t, "timestamp", timestamp)
    ensures var topic, payload := "agent/" + agent + "/trail/" + name, PrintSpec.Print(t, fmt, 0);
      TwoSlashes(topic) && GoodPayload(RouteKind(run, topic), payload)
  {
    hide Topic, KindName, Legal, LegalRun, Plain, NestsWithin, PrintSpec.Print, Outcome, TwoSlashes, RouteKind,
      StringArrives, HasString, StringOf;
    PrintedOutcome(t, fmt);
    KeysSpelled();
    StringFound(t, "timestamp", timestamp);
    TopicSpelled(agent, name);
    TopicKind(run, TRAIL, agent, name);
  }

  /**
   * A trail whose payload is a printed object reaches the last callback registered for
   * it, with the strings and the value of that object, whatever else the object holds.
   */
  lemma {:induction false} TrailDelivered(run: seq<Reg>, agent: string, name: string, t: Tree, fmt: bool,
      timestamp: B.Text)
    requires LegalRun(run) && NothingLost(run) && OneAgentPerName(run) && Legal(agent) && Legal(name)
    requires Plain(t) && NestsWithin(t, 1000) && StringArrives(t, "timestamp", timestamp)
    ensures var topic, payload := "agent/" + agent + "/trail/" + name, PrintSpec.Print(t, fmt, 0);
      && TwoSlashes(topic) && GoodPayload(RouteKind(run, topic), payload)
      && var d := Expected(run, topic, payload);
      match Ideal(run, TRAIL, agent, name)
      case None => d == None
      case Some(cb) =>
        && d.Some? && d.value.message.Trail? && ValueArrives(t, d.value.message.value)
        && d.value == Delivery(Invocation(TRAIL, agent, name, cb), Some(name),
          Trail(Some(timestamp), d.value.message.value))
    ensures Ideal(run, TRAIL, agent, name).Some? ==> RouteKind(run, "agent/" + agent + "/trail/" + name) == Some(TRAIL)
  {
    hide Registry.Dispatch, Topic, KindName, Ideal, Legal, LegalRun, OneAgentPerName, NothingLost, Plain, NestsWithin,
      PrintSpec.Print, Outcome, TwoSlashes, RouteKind, StringArrives, ValueArrives, HasString, StringOf, TrailValueOf;
    var payload := PrintSpec.Print(t, fmt, 0);
    PrintedOutcome(t, fmt);
    KeysSpelled();
    StringFound(t, "timestamp", timestamp);
    TrailArrives(t);
    TopicSpelled(agent, name);
    TopicKind(run, TRAIL, agent, name);
    TopicsServed(run, agent, name);
    DispatchKind(run, "agent/" + agent + "/trail/" + name);
  }

  lemma {:induction false} EventDelivered(run: seq<Reg>, agent: string, name: string, t: Tree, fmt: bool,
      timestamp: B.Text, message: B.Text)
    requires LegalRun(run) && NothingLost(run) && OneAgentPerName(run) && Legal(agent) && Legal(name)
    requires Plain(t) && NestsWithin(t, 1000)
    requires StringArrives(t, "timestamp", timestamp) && StringArrives(t, "message", message)
    ensures var topic, payload := "agent/" + agent + "/event/" + name, PrintSpec.Print(t, fmt, 0);
      && TwoSlashes(topic) && GoodPayload(RouteKind(run, topic), payload)
      && Expected(run, topic, payload) == match Ideal(run, EVENT, agent, name)
      case None => None
      case Some(cb) =>
        Some(Delivery(Invocation(EVENT, agent, name, cb), Some(name), Event(Some(timestamp), Some(message))))
  {
    hide Registry.Dispatch, Topic, KindName, Ideal, Legal, LegalRun, OneAgentPerName, NothingLost, Plain, NestsWithin,
      PrintSpec.Print, Outcome, TwoSlashes, RouteKind, StringArrives, HasString, StringOf;
    var payload := PrintSpec.Print(t, fmt, 0);
    PrintedOutcome(t, fmt);
    KeysSpelled();
    StringFound(t, "timestamp", timestamp);
    StringFound(t, "message", message);
    TopicSpelled(agent, name);
    TopicKind(run, EVENT, agent, name);
    TopicsServed(run, agent, name);
  }

  lemma {:induction false} Registered(run: seq<Reg>, r: Reg)
    requires LegalRun(run) && NothingLost(run) && Legal(r.agent) && Legal(r.name)
    ensures LegalRun(run + [r]) && (r.lost == {} ==> NothingLost(run + [r]))
    ensures Ideal(run + [r], r.kind, r.agent, r.name) == Some(r.callback)
  {
    hide Legal;
    assert (run + [r])[..|run|] == run;
  }

  lemma LegalText(s: string)
    requires Legal(s)
    ensures s != "" && CText(s)
  {
  }

  /** A trail is registered, and a message arrives for it. */
  method RegisterAndReceive(client: Client, agent: string, name: string, callback: Callback, topicName: array<char>,
      payload: B.Text, mem: Heap.Memory, ghost t: Tree, ghost fmt: bool, ghost timestamp: B.Text)
    returns (rc: Code, invoked: Option<Delivery>)
    requires client.Valid() && LegalRun(client.run) && NothingLost(client.run) && Legal(agent) && Legal(name)
    requires OneAgentPerName(client.run + [Reg(TRAIL, agent, name, callback, {})])
    requires StringAt(topicName[..], 0, "agent/" + agent + "/trail/" + name)
    requires Plain(t) && NestsWithin(t, 1000) && StringArrives(t, "timestamp", timestamp)
    requires payload == PrintSpec.Print(t, fmt, 0)
    modifies client, client.handlers, client.trailHandlers, client.eventHandlers, client.handlers.entries
    modifies client.trailHandlers.entries, client.eventHandlers.entries, topicName, mem
    ensures client.Valid()
    ensures mem.failures == old(mem.failures) ==>
      && rc == SUCCESS && invoked.Some? && invoked.value.call == Invocation(TRAIL, agent, name, callback)
      && invoked.value.name == Some(name) && invoked.value.message.Trail?
      && invoked.value.message.timestamp == Some(timestamp) && ValueArrives(t, invoked.value.message.value)
  {
    hide Legal, LegalRun, NothingLost, OneAgentPerName, Plain, NestsWithin, StringArrives, ValueArrives, StringAt,
      PrintSpec.Print, Expected, GoodPayload, Ideal, RouteKind, TwoSlashes, Outcome;
    invoked := None;
    ghost var run, lost := client.run, {};
    LegalText(agent);
    LegalText(name);
    rc, lost := client.SetNamedHandler(TRAIL, agent, name, callback, mem);
    if rc != SUCCESS {
      return;
    }
    Registered(run, Reg(TRAIL, agent, name, callback, lost));
    TrailAcceptable(client.run, agent, name, t, fmt, timestamp);
    if lost == {} {
      TrailDelivered(client.run, agent, name, t, fmt, timestamp);
    }
    rc, invoked := client.MessageArrived(topicName, payload, mem, "agent/" + agent + "/trail/" + name);
  }
}
