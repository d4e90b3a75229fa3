/**
 `cjson_msg_add`, `mqtt_send_run` and the callbacks of `src/json.c` and `src/mqtt.c`, on the linked
 list of `src/include/list.h`, refining the state machine of module Telemetry.
 */
module TelemetryQueue {
  import opened LinkedList
  import opened Memory
  import opened Telemetry

  /**
   struct msg_queue without its list head: the head's address is the key it is stored under.  The two
   strings are given by their addresses, and msg is None for a null pointer.
   */
  datatype MsgQueue = MsgQueue(msg: Option<nat>, sendTopic: nat)

  /** One call of mosquitto_publish, with what it returned. */
  datatype Call = Call(topic: string, payload: seq<bv8>, rc: int)

  // ---------- what mosquitto sees ----------

  function Payload(item: Item): seq<bv8> {
    if item.text.Some? then item.text.value else []
  }

  /** The call a message leads to: none unless it has a text, a supported topic and a connection. */
  function CallsFor(r: Record): seq<Call> {
    match r.outcome
    case Published => [Call(r.item.topic, Payload(r.item), 0)]
    case PublishFailed(rc) => [Call(r.item.topic, Payload(r.item), rc)]
    case _ => []
  }

  function Calls(log: seq<Record>): seq<Call> {
    if log == [] then [] else CallsFor(log[0]) + Calls(log[1..])
  }

  lemma {:induction false} CallsAppend(log: seq<Record>, r: Record)
    ensures Calls(log + [r]) == Calls(log) + CallsFor(r)
  {
    hide CallsFor;
    if log == [] {
      assert (log + [r])[1..] == [];
    } else {
      assert (log + [r])[0] == log[0] && (log + [r])[1..] == log[1..] + [r];
      CallsAppend(log[1..], r);
    }
  }

  /** The calls that mosquitto took. */
  function Taken(calls: seq<Call>): seq<Call> {
    if calls == [] then [] else (if calls[0].rc == 0 then [calls[0]] else []) + Taken(calls[1..])
  }

  lemma TakenStep(call: Call, rest: seq<Call>)
    ensures Taken([call] + rest) == (if call.rc == 0 then [call] else []) + Taken(rest)
  {
    assert ([call] + rest)[1..] == rest;
  }

  lemma {:induction false} TakenConcat(a: seq<Call>, b: seq<Call>)
    ensures Taken(a + b) == Taken(a) + Taken(b)
  {
    if a == [] {
      assert a + b == b && [] + Taken(b) == Taken(b);
    } else {
      hide *;
      var first, rest := if a[0].rc == 0 then [a[0]] else [], a[1..];
      assert a == [a[0]] + rest && a + b == [a[0]] + (rest + b);
      TakenStep(a[0], rest);
      TakenStep(a[0], rest + b);
      TakenConcat(rest, b);
      assert first + (Taken(rest) + Taken(b)) == first + Taken(rest) + Taken(b);
    }
  }

  lemma TakenOne(call: Call)
    ensures Taken([]) == [] && Taken([call]) == if call.rc == 0 then [call] else []
  {
    assert [call][1..] == [];
  }

  lemma TakenOfRecord(r: Record)
    requires r.outcome != PublishFailed(0)
    ensures Taken(CallsFor(r)) == if r.outcome == Published then [Call(r.item.topic, Payload(r.item), 0)] else []
  {
    if CallsFor(r) != [] {
      assert CallsFor(r)[1..] == [];
    }
  }

  /** Mosquitto took exactly the messages published, each with its own text and topic, in that order. */
  lemma {:induction false} TakenArePublished(log: seq<Record>)
    requires forall r | r in log :: r.outcome != PublishFailed(0)
    ensures var taken, published := Taken(Calls(log)), PublishedItems(log);
      && |taken| == |published|
      && forall i | 0 <= i < |taken| :: taken[i] == Call(published[i].topic, Payload(published[i]), 0)
  {
    if log != [] {
      var r := log[0];
      assert r in log && forall x | x in log[1..] :: x in log;
      TakenArePublished(log[1..]);
      TakenConcat(CallsFor(r), Calls(log[1..]));
      TakenOfRecord(r);
      assert Taken(Calls(log)) == Taken(CallsFor(r)) + Taken(Calls(log[1..]));
      hide Taken, Calls, CallsFor, Payload;
    }
  }

  // ---------- the steps of one drain ----------

  /** Nothing is enqueued. */
  ghost predicate Quiet(steps: seq<Step>) {
    forall step | step in steps :: !step.Enqueue?
  }

  /** The model has come from `start` by beginning a drain and then the steps in `mid`. */
  ghost predicate InDrain(start: State, mid: seq<Step>, s: State) {
    var steps := [BeginDrain] + mid;
    EndDrain !in mid && Quiet(mid) && CanRun(start, steps) && Run(start, steps) == s
  }

  lemma DrainBegins(s: State)
    requires Enabled(s, BeginDrain)
    ensures InDrain(s, [], Apply(s, BeginDrain)) && Apply(s, BeginDrain) == s.(draining := true)
  {
    Extend(s, [], BeginDrain);
    assert [BeginDrain] + [] == [] + [BeginDrain];
  }

  lemma DrainGoesOn(start: State, mid: seq<Step>, s: State, more: seq<Step>)
    requires InDrain(start, mid, s) && CanRun(s, more) && EndDrain !in more && Quiet(more)
    ensures InDrain(start, mid + more, Run(s, more))
  {
    RunConcat(start, [BeginDrain] + mid, more);
    assert [BeginDrain] + (mid + more) == [BeginDrain] + mid + more;
  }

  lemma HandleInDrain(start: State, mid: seq<Step>, s: State, rc: int)
    requires InDrain(start, mid, s) && Enabled(s, Handle(rc))
    ensures InDrain(start, mid + [Handle(rc)], Apply(s, Handle(rc)))
  {
    Extend(start, [BeginDrain] + mid, Handle(rc));
    assert [BeginDrain] + (mid + [Handle(rc)]) == [BeginDrain] + mid + [Handle(rc)];
  }

  lemma DrainEnds(start: State, mid: seq<Step>, s: State)
    requires InDrain(start, mid, s) && Enabled(s, EndDrain)
    ensures var t, steps := Apply(s, EndDrain), [BeginDrain] + mid + [EndDrain];
      && Quiet(steps) && CanRun(start, steps) && Run(start, steps) == t && t == s.(draining := false)
      && t.accepted == start.accepted && Items(t.log) == Items(start.log) + start.queue
  {
    Extend(start, [BeginDrain] + mid, EndDrain);
    DrainHandlesWholeQueue(start, mid);
  }

  lemma InDrainMeaning(start: State, mid: seq<Step>, s: State)
    requires InDrain(start, mid, s)
    ensures CanRun(start, [BeginDrain] + mid) && Run(start, [BeginDrain] + mid) == s && Quiet([BeginDrain] + mid)
  {
  }

  lemma CallbackStep(s: State, callback: Callback)
    requires !s.exited
    ensures Enabled(s, callback) && callback != EndDrain && !callback.Enqueue? && !callback.Handle?
    ensures var t := Apply(s, callback);
      t == s.(connected := t.connected, exited := t.exited)
  {
  }

  lemma NoSteps(s: State)
    ensures CanRun(s, []) && Run(s, []) == s && Quiet([]) && Handles([]) == 0
  {
  }

  lemma QuietMore(steps: seq<Step>, step: Step)
    requires Quiet(steps) && !step.Enqueue?
    ensures Quiet(steps + [step])
  {
  }

  /** What the mosquitto thread does before each message, and what mosquitto returns for it. */
  type Schedule = nat -> (seq<Callback>, int)

  /** The steps up to the n-th message of a drain. */
  function Turns(schedule: Schedule, n: nat): seq<Step> {
    if n == 0 then []
    else var (callbacks, rc) := schedule(n - 1);
      Turns(schedule, n - 1) + callbacks + [Handle(rc)]
  }

  /** The steps of a drain of n messages. */
  function Script(schedule: Schedule, n: nat): seq<Step> {
    [BeginDrain] + Turns(schedule, n) + [EndDrain]
  }

  lemma {:induction false} TurnsPrefix(schedule: Schedule, i: nat, n: nat)
    requires i <= n
    ensures Turns(schedule, i) <= Turns(schedule, n)
    decreases n
  {
    if i < n {
      TurnsPrefix(schedule, i, n - 1);
    }
  }

  /** A drain that stops among the callbacks before message i has followed its script so far. */
  lemma StoppedTurn(schedule: Schedule, i: nat, n: nat, more: seq<Step>)
    requires i < n && more <= schedule(i).0
    ensures [BeginDrain] + (Turns(schedule, i) + more) <= Script(schedule, n)
  {
    TurnsPrefix(schedule, i + 1, n);
    assert Turns(schedule, i) + more <= Turns(schedule, i + 1);
  }

  lemma TurnsMeaning(schedule: Schedule, i: nat)
    ensures Turns(schedule, 0) == []
    ensures var (callbacks, rc) := schedule(i);
      Turns(schedule, i + 1) == Turns(schedule, i) + callbacks + [Handle(rc)]
  {
  }

  lemma ScriptMeaning(schedule: Schedule, n: nat)
    ensures Script(schedule, n) == [BeginDrain] + Turns(schedule, n) + [EndDrain]
  {
  }

  // ---------- structs and strings ----------

  /** The struct of a message: both strings were allocated under its number. */
  function Entry(item: Item): MsgQueue {
    MsgQueue(if item.text.Some? then Some(item.id) else None, item.id)
  }

  /**
   The live strings once some messages have been handled: the texts of those still to be handled, and
   their topics, and besides the topics of messages that had no text, which are never freed.
   */
  ghost predicate Owned(texts: map<nat, seq<bv8>>, topics: map<nat, string>, handled: nat, accepted: seq<Item>) {
    && (forall i: nat {:trigger i in texts} ::
          i in texts <==> handled <= i < |accepted| && accepted[i].text.Some?)
    && (forall i: nat {:trigger texts[i]} :: i in texts ==> texts[i] == accepted[i].text.value)
    && (forall i: nat {:trigger i in topics} ::
          i in topics <==> i < |accepted| && (handled <= i || accepted[i].text.None?))
    && (forall i: nat {:trigger topics[i]} :: i in topics ==> topics[i] == accepted[i].topic)
  }

  /** A message comes in: its topic is duplicated, and its text if there is memory for it. */
  lemma OwnedAppend(texts: map<nat, seq<bv8>>, topics: map<nat, string>, handled: nat, accepted: seq<Item>, item: Item)
    requires Owned(texts, topics, handled, accepted) && handled <= |accepted|
    ensures var n := |accepted|;
      Owned(if item.text.Some? then texts[n := item.text.value] else texts, topics[n := item.topic],
            handled, accepted + [item])
  {
  }

  /** A message has been handled: with a text, both strings go; without, neither. */
  lemma OwnedHandled(texts: map<nat, seq<bv8>>, topics: map<nat, string>, n: nat, accepted: seq<Item>)
    requires Owned(texts, topics, n, accepted) && n < |accepted|
    ensures n in topics && topics[n] == accepted[n].topic
    ensures if accepted[n].text.Some?
      then n in texts && texts[n] == accepted[n].text.value && Owned(texts - {n}, topics - {n}, n + 1, accepted)
      else Owned(texts, topics, n + 1, accepted)
  {
  }

  /** When all messages have been handled, what is left are the topics of those without a text. */
  lemma OwnedAtEnd(texts: map<nat, seq<bv8>>, topics: map<nat, string>, accepted: seq<Item>)
    requires Owned(texts, topics, |accepted|, accepted)
    ensures texts == map[] && topics.Keys == set i: nat | i < |accepted| && accepted[i].text.None?
  {
    assert forall i: nat :: i !in texts;
  }

  /** The live structs are exactly those of the nodes, and hold the queued items in order. */
  ghost predicate Backs(structs: map<ListHead, MsgQueue>, nodes: seq<ListHead>, queue: seq<Item>) {
    && structs.Keys == (set x | x in nodes)
    && |queue| == |nodes|
    && (forall i | 0 <= i < |nodes| :: nodes[i] in structs && structs[nodes[i]] == Entry(queue[i]))
  }

  lemma BacksNothing(structs: map<ListHead, MsgQueue>, queue: seq<Item>)
    requires Backs(structs, [], queue)
    ensures structs == map[] && queue == []
  {
    assert structs.Keys == {};
  }

  lemma BacksAppend(structs: map<ListHead, MsgQueue>, nodes: seq<ListHead>, queue: seq<Item>, m: ListHead, item: Item)
    requires Backs(structs, nodes, queue) && m !in nodes
    ensures Backs(structs[m := Entry(item)], nodes + [m], queue + [item])
  {
  }

  lemma Appended(m: ListHead, others: map<ListHead, MsgQueue>, nodes: seq<ListHead>, s: State, r: Request)
    requires Backs(others, nodes, s.queue) && m !in nodes && Inv(s)
    requires Accepts(r) && Enabled(s, Enqueue(r))
    ensures var next := Apply(s, Enqueue(r));
      && next.accepted == s.accepted + [NewItem(|s.accepted|, r)] && |s.log| <= |s.accepted|
      && Inv(next) && Backs(others[m := Entry(NewItem(|s.accepted|, r))], nodes + [m], next.queue)
      && next.connected == s.connected && next.exited == s.exited && next.draining == s.draining
      && next.log == s.log
  {
    EnqueueMeaning(s, r);
    StepKeepsInv(s, Enqueue(r));
    BacksAppend(others, nodes, s.queue, m, NewItem(|s.accepted|, r));
    hide *;
  }

  /** What is accepted, as what. */
  lemma AcceptedMeaning(s: State, r: Request)
    ensures Accepts(r) <==> |r.knownId| != 0 && r.mallocOk
    ensures NewItem(|s.accepted|, r) == Item(|s.accepted|, if r.strdupOk then Some(CString(r.data)) else None,
                                             Topic(r.product, r.device, r.suffix))
    ensures Accepts(r) && Enabled(s, Enqueue(r)) ==>
      var item := NewItem(|s.accepted|, r);
      Apply(s, Enqueue(r)) == s.(queue := s.queue + [item], accepted := s.accepted + [item])
  {
    hide Topic, CString;
  }

  lemma BacksTail(structs: map<ListHead, MsgQueue>, nodes: seq<ListHead>, queue: seq<Item>)
    requires Backs(structs, nodes, queue) && nodes != [] && Distinct(nodes)
    ensures nodes[0] in structs && queue != [] && structs[nodes[0]] == Entry(queue[0])
    ensures Backs(structs - {nodes[0]}, nodes[1..], queue[1..])
    ensures forall x | x in nodes[1..] :: x in structs && x != nodes[0]
  {
  }

  lemma CursorAtHead(h: ListHead, nodes: seq<ListHead>)
    requires h !in nodes && (nodes + [h])[0] == h
    ensures nodes == []
  {
  }

  lemma OneMoreFreed(before: seq<ListHead>, freed: seq<ListHead>, nodes: seq<ListHead>)
    requires nodes != [] && |freed| <= |before| && freed == before[..|freed|] && nodes == before[|freed|..]
    ensures |freed| < |before| && nodes[0] == before[|freed|]
    ensures freed + [nodes[0]] == before[..|freed| + 1] && nodes[1..] == before[|freed| + 1..]
  {
  }

  lemma RemoveFirst(nodes: seq<ListHead>)
    requires nodes != []
    ensures Remove(nodes, 0) == nodes[1..]
  {
  }

  class Sender {
    /** g_msg_list */
    const messages: ListHead
    /** Every live struct msg_queue; malloc adds a key and free removes it. */
    var structs: map<ListHead, MsgQueue>
    /** Every live string that strdup made of a text or a topic, and the next free address. */
    var texts: map<nat, seq<bv8>>
    var topics: map<nat, string>
    var address: nat
    var connectedUav: bool
    var exited: bool
    /** Every call of mosquitto_publish so far. */
    var calls: seq<Call>

    ghost var nodes: seq<ListHead>
    ghost var model: State

    /**
     The list holds exactly the live structs, they are the model's queue in order, the strings are
     those the model's messages account for, and mosquitto was called exactly as its log says.
     */
    ghost predicate Consistent()
      reads this, messages, nodes
    {
      && IsList(messages, nodes)
      && Backs(structs, nodes, model.queue)
      && model.connected == connectedUav && model.exited == exited
      && calls == Calls(model.log)
      && Strings(model)
      && Inv(model)
    }

    ghost predicate Strings(s: State)
      reads this`texts, this`topics, this`address
    {
      address == |s.accepted| && Owned(texts, topics, |s.log|, s.accepted)
    }

    ghost predicate Valid()
      reads this, messages, nodes
    {
      Consistent() && !model.draining
    }

    constructor ()
      ensures Valid() && fresh(messages) && nodes == [] && model == Telemetry.INITIAL
      ensures !connectedUav && !exited && structs == map[] && texts == map[] && topics == map[] && calls == []
      ensures model == State(false, false, false, [], [], [])
    {
      messages := new ListHead();
      structs := map[];
      texts, topics, address := map[], map[], 0;
      connectedUav := false;
      exited := false;
      calls := [];
      nodes := [];
      model := Telemetry.INITIAL;
      new;
      InitialInv();
    }

    method CjsonMsgAdd(request: Request)
      requires Valid() && !exited
      modifies this, messages, messages.prev
      ensures Valid()
      ensures model == Apply(old(model), Enqueue(request))
      ensures |request.knownId| == 0 || !request.mallocOk ==>
        && model == old(model) && nodes == old(nodes)
        && structs == old(structs) && texts == old(texts) && topics == old(topics)
      ensures |request.knownId| != 0 && request.mallocOk ==>
        && |nodes| > 0 && nodes[..|nodes| - 1] == old(nodes) && fresh(nodes[|nodes| - 1])
        && var text := if request.strdupOk then Some(CString(request.data)) else None;
           var item := Item(|old(model).accepted|, text, Topic(request.product, request.device, request.suffix));
           model == old(model).(queue := old(model).queue + [item], accepted := old(model).accepted + [item])
    {
      AcceptedMeaning(model, request);
      hide *;
      Acceptance(request);
      if |request.knownId| == 0 {
        return;
      }
      var topic := Topic(request.product, request.device, request.suffix);
      if !request.mallocOk {
        return;
      }
      var m := new ListHead();
      ghost var others := structs;
      var msg := StrdupText(request.data, request.strdupOk);
      var sendTopic := StrdupTopic(topic);
      structs := structs[m := MsgQueue(msg, sendTopic)];
      MakeStrings(Apply(model, Enqueue(request)));
      Append(m, others, request);
    }

    /** A null pointer is returned when there is no memory. */
    method StrdupText(data: seq<bv8>, ok: bool) returns (p: Option<nat>)
      modifies this`texts
      ensures p == if ok then Some(address) else None
      ensures texts == if ok then old(texts)[address := CString(data)] else old(texts)
    {
      p := None;
      if ok {
        texts := texts[address := CString(data)];
        p := Some(address);
      }
    }

    method StrdupTopic(topic: string) returns (p: nat)
      modifies this`topics, this`address
      ensures p == old(address) && address == p + 1 && topics == old(topics)[p := topic]
    {
      p := address;
      topics := topics[p := topic];
      address := p + 1;
    }

    /** list_add_tail(&m->head, &g_msg_list), for a struct that has just been filled in. */
    method Append(m: ListHead, ghost others: map<ListHead, MsgQueue>, ghost request: Request)
      requires m != messages && m !in nodes
      requires Accepts(request) && Enabled(model, Enqueue(request))
      requires structs == others[m := Entry(NewItem(|model.accepted|, request))]
      requires IsList(messages, nodes) && Backs(others, nodes, model.queue) && Inv(model)
      requires model.connected == connectedUav && model.exited == exited && !model.draining
      requires calls == Calls(model.log) && Strings(Apply(model, Enqueue(request)))
      modifies this`nodes, this`model, m, messages`prev, messages.prev`next
      ensures Valid() && nodes == old(nodes) + [m] && model == Apply(old(model), Enqueue(request))
    {
      hide *;
      Appended(m, others, nodes, model, request);
      ListAddTail(m, messages, nodes);
      nodes := nodes + [m];
      model := Apply(model, Enqueue(request));
      MakeConsistent();
      MakeValid();
    }

    lemma MakeValid()
      requires Consistent() && !model.draining
      ensures Valid()
    {
    }

    /** What the guards of cjson_msg_add decide. */
    lemma Acceptance(r: Request)
      requires Valid() && !exited
      ensures Consistent() && IsList(messages, nodes) && Backs(structs, nodes, model.queue) && Inv(model)
      ensures model.connected == connectedUav && model.exited == exited && !model.draining
      ensures calls == Calls(model.log)
      ensures messages.prev == messages || messages.prev in nodes
      ensures Enabled(model, Enqueue(r))
      ensures Accepts(r) <==> |r.knownId| != 0 && r.mallocOk
      ensures !Accepts(r) ==> Apply(model, Enqueue(r)) == model
      ensures Entry(NewItem(|model.accepted|, r)) == MsgQueue(if r.strdupOk then Some(address) else None, address)
      ensures Accepts(r) ==>
        var next := Apply(model, Enqueue(r));
        && |next.accepted| == address + 1
        && Owned(if r.strdupOk then texts[address := CString(r.data)] else texts,
                 topics[address := Topic(r.product, r.device, r.suffix)], |next.log|, next.accepted)
    {
      Ends(messages, nodes);
      EnqueueMeaning(model, r);
      assert |model.log| <= |model.accepted|;
      OwnedAppend(texts, topics, |model.log|, model.accepted, NewItem(|model.accepted|, r));
      hide Inv, IsList, Backs, Owned, Topic, CString;
    }

    /** The result code is not 0: the process exits. */
    method MqttConnectCallback(ours: bool, rc: int)
      requires Consistent() && !exited
      modifies this`connectedUav, this`exited, this`model
      ensures Consistent()
      ensures model == Apply(old(model), Connect(ours, rc))
      ensures exited <==> rc != 0
      ensures connectedUav == if rc == 0 && ours then true else old(connectedUav)
      ensures model == old(model).(connected := connectedUav, exited := exited)
    {
      StepKeepsInv(model, Connect(ours, rc));
      hide Inv;
      if rc != 0 {
        exited := true;
      } else if ours {
        connectedUav := true;
      }
      model := Apply(model, Connect(ours, rc));
    }

    method MqttDisconnectCallback(ours: bool)
      requires Consistent() && !exited
      modifies this`connectedUav, this`model
      ensures Consistent()
      ensures model == Apply(old(model), Disconnect(ours))
      ensures connectedUav == if ours then false else old(connectedUav)
      ensures model == old(model).(connected := connectedUav)
    {
      StepKeepsInv(model, Disconnect(ours));
      hide Inv;
      if ours {
        connectedUav := false;
      }
      model := Apply(model, Disconnect(ours));
    }

    /** The library call: all the model knows of it is its arguments and its result. */
    method MosquittoPublish(topic: string, payload: seq<bv8>, rc: int) returns (ret: int)
      modifies this`calls
      ensures ret == rc && calls == old(calls) + [Call(topic, payload, rc)]
    {
      calls := calls + [Call(topic, payload, rc)];
      ret := rc;
    }

    /** `rc` is what mosquitto_publish would return; it is asked only while connected. */
    method DoTtyMsgPublish(data: seq<bv8>, len: nat, topic: string, rc: int)
      returns (ret: int, ghost outcome: Outcome)
      requires len <= |data|
      modifies this`calls
      ensures connectedUav && "/paas/" <= topic ==>
        && ret == rc && calls == old(calls) + [Call(topic, data[..len], rc)]
        && outcome == if ret == 0 then Published else PublishFailed(ret)
      ensures !(connectedUav && "/paas/" <= topic) ==>
        && ret == -1 && calls == old(calls)
        && outcome == if "/paas/" <= topic then Offline else Unsupported
    {
      ret := -1;
      outcome := Publish(connectedUav, topic, rc);
      if "/paas/" <= topic {
        if connectedUav {
          ret := MosquittoPublish(topic, data[..len], rc);
          if ret != 0 {
            return ret, outcome;
          }
        }
      }
    }

    /** The callbacks that come in between two messages; none after the process has exited. */
    method RunCallbacks(callbacks: seq<Callback>) returns (ghost trace: seq<Step>)
      requires Consistent() && !exited
      modifies this`connectedUav, this`exited, this`model
      ensures Consistent()
      ensures CanRun(old(model), trace) && Run(old(model), trace) == model
      ensures trace <= callbacks && (!exited ==> trace == callbacks)
      ensures EndDrain !in trace && Quiet(trace) && Handles(trace) == 0
      ensures model == old(model).(connected := model.connected, exited := model.exited)
    {
      hide *;
      trace := [];
      NoSteps(model);
      var i := 0;
      while i < |callbacks| && !exited
        invariant i <= |callbacks| && Consistent()
        invariant trace == callbacks[..i]
        invariant CanRun(old(model), trace) && Run(old(model), trace) == model
        invariant EndDrain !in trace && Quiet(trace) && Handles(trace) == 0
        invariant model == old(model).(connected := model.connected, exited := model.exited)
      {
        ghost var step := callbacks[i];
        ExitedInModel();
        CallbackStep(model, callbacks[i]);
        Extend(old(model), trace, step);
        QuietMore(trace, step);
        Invoke(callbacks[i]);
        trace := trace + [step];
        i := i + 1;
      }
    }

    /** One callback on the mosquitto thread. */
    method Invoke(callback: Callback)
      requires Consistent() && !exited
      modifies this`connectedUav, this`exited, this`model
      ensures Consistent() && model == Apply(old(model), callback)
      ensures exited <==> callback.Connect? && callback.rc != 0
      ensures connectedUav == if callback.ours && (callback.Disconnect? || callback.rc == 0) then callback.Connect?
                              else old(connectedUav)
    {
      hide Inv, IsList, Consistent, Apply;
      match callback {
        case Connect(ours, rc) => MqttConnectCallback(ours, rc);
        case Disconnect(ours) => MqttDisconnectCallback(ours);
      }
    }

    /**
     The first half of the loop body: a message with a text is sent and its two strings are freed; one
     without is not sent, and its topic is not freed.
     */
    method Send(m: MsgQueue, ghost item: Item, rc: int)
      requires m == Entry(item)
      requires item.text.Some? ==>
        && item.id in texts && texts[item.id] == item.text.value && 0 !in item.text.value
        && item.id in topics && topics[item.id] == item.topic
      modifies this`calls, this`texts, this`topics
      ensures calls == old(calls) + CallsFor(Record(item, Deliver(connectedUav, item, rc)))
      ensures calls == old(calls) + if item.text.Some? && connectedUav && "/paas/" <= item.topic
                                    then [Call(item.topic, item.text.value, rc)] else []
      ensures texts == if item.text.Some? then old(texts) - {item.id} else old(texts)
      ensures topics == if item.text.Some? then old(topics) - {item.id} else old(topics)
    {
      if m.msg.Some? {
        var ret;
        ghost var outcome;
        var msg, topic := texts[m.msg.value], topics[m.sendTopic];
        CStringWhole(msg);
        var len := |CString(msg)|;
        assert msg[..len] == Payload(item);
        hide CString;
        ret, outcome := DoTtyMsgPublish(msg, len, topic, rc);
        texts := texts - {m.msg.value};
        topics := topics - {m.sendTopic};
        hide Supported;
      }
    }

    /** free(m) of a node that is out of the list: its links hold anything afterwards. */
    method Free(pos: ListHead)
      requires IsList(messages, nodes) && pos != messages && pos !in nodes && pos in structs
      modifies pos, this`structs
      ensures IsList(messages, nodes) && structs == old(structs) - {pos}
    {
      hide *;
      structs := structs - {pos};
      pos.next, pos.prev := *, *;
      assert ([messages] + nodes)[1..] == nodes;
      Untouched([messages] + nodes);
    }

    /** list_del and free of the first node. */
    method UnlinkAndFree(pos: ListHead)
      requires IsList(messages, nodes) && nodes != [] && pos == nodes[0] && pos in structs
      requires pos != messages && pos !in nodes[1..]
      modifies this`structs, this`nodes, pos, pos.next`prev, pos.prev`next
      ensures IsList(messages, nodes) && nodes == old(nodes)[1..]
      ensures structs == old(structs) - {pos}
    {
      hide *;
      RemoveFirst(nodes);
      ListDel(pos, messages, nodes, 0);
      nodes := nodes[1..];
      Free(pos);
    }

    /** The loop body of mqtt_send_run: the message is sent, its node unlinked, its struct freed. */
    method SendAndFree(pos: ListHead, rc: int)
      requires Consistent() && model.draining && !exited && nodes != [] && pos == nodes[0]
      modifies this`structs, this`nodes, this`model, this`calls, this`texts, this`topics
      modifies pos, pos.next`prev, pos.prev`next
      ensures Consistent()
      ensures model == Apply(old(model), Handle(rc)) && model.draining && !exited
      ensures model == old(model).(queue := model.queue, log := model.log)
      ensures model.queue == old(model).queue[1..] && |model.log| == |old(model).log| + 1
      ensures model.log[..|model.log| - 1] == old(model).log
      ensures var item, o := old(model).queue[0], model.log[|model.log| - 1].outcome;
        && model.log[|model.log| - 1].item == item
        && (item.text.None? ==> o == NoText)
        && (item.text.Some? && connectedUav ==> o == if rc == 0 then Published else PublishFailed(rc))
        && (item.text.Some? && !connectedUav ==> o == Offline)
      ensures nodes == old(nodes)[1..] && pos !in structs
    {
      hide *;
      FirstMessage(rc);
      FirstOutcome(rc);
      Send(structs[pos], model.queue[0], rc);
      UnlinkAndFree(pos);
      model := Apply(model, Handle(rc));
      MakeStrings(model);
      MakeConsistent();
    }

    /** What handling the first message needs, and what it leaves to be shown. */
    lemma FirstMessage(rc: int)
      requires Consistent() && model.draining && !exited && nodes != []
      ensures IsList(messages, nodes) && nodes[0] != messages && nodes[0] !in nodes[1..]
      ensures nodes[0] in structs && model.queue != [] && structs[nodes[0]] == Entry(model.queue[0])
      ensures model.connected == connectedUav && model.exited == exited && calls == Calls(model.log)
      ensures Enabled(model, Handle(rc))
      ensures var item, next := model.queue[0], Apply(model, Handle(rc));
        && Inv(next) && Backs(structs - {nodes[0]}, nodes[1..], next.queue)
        && next.connected == model.connected && next.exited == model.exited && next.draining
        && Calls(next.log) == calls + CallsFor(Record(item, Deliver(connectedUav, item, rc)))
      ensures var item, next := model.queue[0], Apply(model, Handle(rc));
        && address == |next.accepted|
        && if item.text.Some?
           then item.id in texts && texts[item.id] == item.text.value && 0 !in item.text.value
             && item.id in topics && topics[item.id] == item.topic
             && Owned(texts - {item.id}, topics - {item.id}, |next.log|, next.accepted)
           else Owned(texts, topics, |next.log|, next.accepted)
    {
      assert Distinct(nodes);
      BacksTail(structs, nodes, model.queue);
      StepKeepsInv(model, Handle(rc));
      HandleMeaning(model, rc);
      CallsAppend(model.log, Record(model.queue[0], Deliver(connectedUav, model.queue[0], rc)));
      assert model.queue[0] == model.accepted[|model.log|];
      OwnedHandled(texts, topics, |model.log|, model.accepted);
      hide Inv, IsList, Backs, Calls, CallsFor, Deliver, Owned;
    }

    /** What becomes of the first message. */
    lemma FirstOutcome(rc: int)
      requires Consistent() && model.draining && !exited && nodes != [] && model.queue != [] && Enabled(model, Handle(rc))
      ensures var item, next := model.queue[0], Apply(model, Handle(rc));
        && next == model.(queue := model.queue[1..], log := next.log)
        && |next.log| == |model.log| + 1 && next.log[..|next.log| - 1] == model.log
        && next.log[|next.log| - 1].item == item
        && var o := next.log[|next.log| - 1].outcome;
           && (item.text.None? ==> o == NoText)
           && (item.text.Some? && connectedUav ==> o == if rc == 0 then Published else PublishFailed(rc))
           && (item.text.Some? && !connectedUav ==> o == Offline)
    {
      var item := model.queue[0];
      assert item == model.accepted[|model.log|] && Supported(item.topic);
      assert "/paas/" <= item.topic;
      HandleMeaning(model, rc);
      DeliverCases(connectedUav, item, rc);
      hide Deliver, Inv, Backs, IsList, Apply;
    }

    lemma MakeConsistent()
      requires IsList(messages, nodes) && Backs(structs, nodes, model.queue) && Inv(model)
      requires model.connected == connectedUav && model.exited == exited && calls == Calls(model.log)
      requires Strings(model)
      ensures Consistent()
    {
    }

    lemma MakeStrings(s: State)
      requires address == |s.accepted| && Owned(texts, topics, |s.log|, s.accepted)
      ensures Strings(s)
    {
    }

    /**
     The 10 ms timer.  `schedule(i)` is what the mosquitto thread does before the i-th message is
     handled, and what mosquitto_publish would return for it.  Unless the process exits, every
     struct is unlinked and freed once, in queue order, and the only strings left are the topics of
     messages without a text.  No struct or string is read after it was freed: they are looked up
     among the live ones, and freeing a node leaves nothing of its links, so that a loop going on
     from a freed node would be lost.
     */
    method MqttSendRun(schedule: Schedule)
      returns (ghost trace: seq<Step>, ghost freed: seq<ListHead>)
      requires Valid() && !exited
      modifies this, messages, nodes
      ensures Consistent()
      ensures Quiet(trace) && CanRun(old(model), trace) && Run(old(model), trace) == model
      ensures trace <= Script(schedule, |old(nodes)|) && (!exited ==> trace == Script(schedule, |old(nodes)|))
      ensures freed + nodes == old(nodes)
      ensures !exited ==> Valid() && nodes == [] && structs == map[] && IsList(messages, [])
      ensures !exited ==> texts == map[]
      ensures !exited ==> topics.Keys == set i: nat | i < |model.accepted| && model.accepted[i].text.None?
      ensures !exited ==> model.accepted == old(model.accepted)
      ensures !exited ==> Items(model.log) == Items(old(model.log)) + old(model.queue)
    {
      hide *;
      ghost var start, before := model, nodes;
      trace, freed := [], [];
      TurnsMeaning(schedule, 0);
      ghost var mid: seq<Step> := BeginDraining();
      CursorNext();
      var i := 0;
      var pos := messages.next;
      var n := pos.next;
      while pos != messages
        invariant Consistent() && model.draining && !exited && InDrain(start, mid, model)
        invariant |freed| <= |before| && freed == before[..|freed|] && nodes == before[|freed|..]
        invariant i == |freed| && mid == Turns(schedule, i)
        invariant pos == (nodes + [messages])[0]
        invariant nodes != [] ==> n == (nodes[1..] + [messages])[0]
        decreases |nodes|
      {
        var (callbacks, rc) := schedule(i);
        ghost var drained := model;
        ghost var more := RunCallbacks(callbacks);
        DrainGoesOn(start, mid, drained, more);
        mid := mid + more;
        if exited {
          StoppedTurn(schedule, i, |before|, more);
          InDrainMeaning(start, mid, model);
          assert before == freed + nodes;
          trace := [BeginDrain] + mid;
          return;
        }
        CursorNext();
        assert forall x | x in nodes :: x in before;
        HandleInDrain(start, mid, model, rc);
        OneMoreFreed(before, freed, nodes);
        SendAndFree(pos, rc);
        mid := mid + [Handle(rc)];
        TurnsMeaning(schedule, i);
        freed := freed + [pos];
        pos := n;
        CursorNext();
        n := n.next;
        i := i + 1;
      }
      CursorNext();
      CursorAtHead(messages, nodes);
      assert before == freed + nodes;
      trace := EndDraining(start, mid);
      ScriptMeaning(schedule, |before|);
    }

    lemma ExitedInModel()
      requires Consistent()
      ensures model.exited == exited
    {
    }

    /** What holds between two calls, and which node besides its own an enqueue writes. */
    lemma BetweenCalls()
      requires Valid()
      ensures Consistent() && !model.draining && |nodes| == |model.queue|
      ensures messages.prev == messages || messages.prev in nodes
      ensures !exited ==> forall r: Request :: Enabled(model, Enqueue(r))
    {
      Ends(messages, nodes);
    }

    ghost method BeginDraining() returns (mid: seq<Step>)
      requires Valid() && !exited
      modifies this`model
      ensures Consistent() && model.draining && InDrain(old(model), mid, model)
      ensures mid == []
    {
      mid := [];
      StepKeepsInv(model, BeginDrain);
      DrainBegins(model);
      hide Inv, IsList, Backs;
      model := Apply(model, BeginDrain);
    }

    ghost method EndDraining(start: State, mid: seq<Step>) returns (trace: seq<Step>)
      requires Consistent() && !exited && nodes == [] && model.draining && InDrain(start, mid, model)
      modifies this`model
      ensures Consistent() && Valid() && structs == map[] && IsList(messages, [])
      ensures texts == map[] && topics.Keys == set i: nat | i < |model.accepted| && model.accepted[i].text.None?
      ensures trace == [BeginDrain] + mid + [EndDrain]
      ensures Quiet(trace) && CanRun(start, trace) && Run(start, trace) == model
      ensures model.accepted == start.accepted && Items(model.log) == Items(start.log) + start.queue
    {
      BacksNothing(structs, model.queue);
      assert |model.log| == |model.accepted|;
      OwnedAtEnd(texts, topics, model.accepted);
      StepKeepsInv(model, EndDrain);
      DrainEnds(start, mid, model);
      hide Inv, IsList, Backs, InDrain, Items, Run, CanRun, Apply;
      model := Apply(model, EndDrain);
      trace := [BeginDrain] + mid + [EndDrain];
    }

    /** Where the cursor and its successor are; both may be read. */
    lemma CursorNext()
      requires Consistent()
      ensures messages.next == (nodes + [messages])[0] && |model.queue| == |nodes|
      ensures forall x | x in nodes :: x in structs && x != messages
      ensures model.draining && nodes != [] && !exited ==> forall rc: int :: Enabled(model, Handle(rc))
      ensures nodes != [] ==>
        && nodes[0].next == (nodes[1..] + [messages])[0] && nodes[0].prev == messages
        && (nodes[0].next == messages || nodes[0].next in nodes)
    {
      hide Linked, Distinct, Ring, Owned, Calls, Inv, Supported;
      Ends(messages, nodes);
      if nodes != [] {
        Neighbours(messages, nodes, 0);
        assert (nodes + [messages])[1..] == nodes[1..] + [messages];
      }
    }
  }
}
