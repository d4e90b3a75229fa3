/**
 From a JSON text to the receiver: `cjson_creat_post_data` of `src/json.c` encrypts the text and
 queues the result, the drain publishes it, and whoever holds the key decrypts what arrives.
 */
module Upload {
  import opened Base64
  import opened Encrypt
  import opened EncryptBuffers
  import opened Memory
  import opened Telemetry
  import opened TelemetryQueue

  /**
   The second half of cjson_creat_post_data.  `printed` is the buffer cJSON_Print returned, and
   `request` says what cjson_msg_add will find; its data is what the encryption made of the text.
   */
  method PostData(sender: Sender, printed: array<bv8>, c: Cipher, request: Request)
    requires sender.Valid() && !sender.exited
    modifies sender, sender.messages, sender.messages.prev
    ensures sender.Valid() && !old(sender.model).draining && !old(sender.model).exited
    ensures sender.model == Apply(old(sender.model),
                                  Enqueue(request.(data := Text(c, CString(printed[..])))))
    ensures forall x | x in sender.nodes :: x in old(sender.nodes) || fresh(x)
  {
    hide *;
    sender.BetweenCalls();
    sender.ExitedInModel();
    TextMeaning(c, CString(printed[..]));
    var json := CString(printed[..]);
    assert printed[..|json|] == json;
    var outBase64, base64Len := AesEcbPkcs5Encrypt(printed, |json|, c, true);
    sender.CjsonMsgAdd(request.(data := CString(outBase64[..])));
  }

  lemma TextMeaning(c: Cipher, m: seq<bv8>)
    ensures Text(c, m) == EncodeBlock(Ciphertext(c, m))
  {
  }

  // ---------- from runs back to the calls that posted ----------

  predicate Posts(step: Step) {
    step.Enqueue? && Accepts(step.request)
  }

  /** Where in a run a message was accepted; the i-th entry belongs to the i-th accepted message. */
  function Origins(steps: seq<Step>, base: nat): seq<nat>
    decreases |steps|
  {
    if steps == [] then []
    else (if Posts(steps[0]) then [base] else []) + Origins(steps[1..], base + 1)
  }

  /** The origin k, counted from `base`, posted this item. */
  predicate PostedAt(item: Item, steps: seq<Step>, base: nat, k: nat) {
    && base <= k < base + |steps| && Posts(steps[k - base])
    && PostedAs(item, steps[k - base].request)
  }

  predicate PostedAs(item: Item, r: Request) {
    && (item.text.Some? ==> item.text.value == CString(r.data))
    && item.topic == Topic(r.product, r.device, r.suffix)
  }

  ghost predicate PostedFrom(items: seq<Item>, steps: seq<Step>, base: nat, ks: seq<nat>) {
    && |items| == |ks|
    && (forall i, j | 0 <= i < j < |ks| :: ks[i] < ks[j])
    && (forall i | 0 <= i < |ks| :: PostedAt(items[i], steps, base, ks[i]))
  }

  lemma Later(items: seq<Item>, steps: seq<Step>, base: nat, ks: seq<nat>)
    requires steps != [] && PostedFrom(items, steps[1..], base + 1, ks)
    ensures PostedFrom(items, steps, base, ks)
    ensures forall i | 0 <= i < |ks| :: ks[i] > base
  {
    forall i | 0 <= i < |ks| ensures PostedAt(items[i], steps, base, ks[i]) && ks[i] > base {
      assert PostedAt(items[i], steps[1..], base + 1, ks[i]);
      assert steps[1..][ks[i] - base - 1] == steps[ks[i] - base];
    }
  }

  lemma OneMore(item: Item, items: seq<Item>, steps: seq<Step>, base: nat, ks: seq<nat>)
    requires PostedFrom(items, steps, base, ks) && (forall i | 0 <= i < |ks| :: ks[i] > base)
    requires PostedAt(item, steps, base, base)
    ensures PostedFrom([item] + items, steps, base, [base] + ks)
  {
    hide PostedAt;
  }

  lemma PostedItem(s: State, steps: seq<Step>, base: nat) returns (item: Item)
    requires steps != [] && Enabled(s, steps[0]) && Posts(steps[0])
    ensures Apply(s, steps[0]).accepted == s.accepted + [item]
    ensures PostedAt(item, steps, base, base)
  {
    hide Topic;
    item := NewItem(|s.accepted|, steps[0].request);
  }

  lemma NothingPosted(s: State, step: Step)
    requires Enabled(s, step) && !Posts(step)
    ensures Apply(s, step).accepted == s.accepted
  {
  }

  lemma NoOrigins(s: State, steps: seq<Step>, base: nat)
    requires steps == []
    ensures CanRun(s, steps) && Run(s, steps) == s && PostedFrom(s.accepted[|s.accepted|..], steps, base, Origins(steps, base))
  {
  }

  lemma FirstStep(s: State, steps: seq<Step>, base: nat)
    requires steps != [] && CanRun(s, steps)
    ensures Enabled(s, steps[0]) && CanRun(Apply(s, steps[0]), steps[1..])
    ensures Run(s, steps) == Run(Apply(s, steps[0]), steps[1..])
    ensures Origins(steps, base) == (if Posts(steps[0]) then [base] else []) + Origins(steps[1..], base + 1)
  {
    hide Apply, Enabled, Posts;
  }

  lemma {:induction false} AcceptedHaveOrigins(s: State, steps: seq<Step>, base: nat)
    requires CanRun(s, steps)
    ensures s.accepted <= Run(s, steps).accepted
    ensures PostedFrom(Run(s, steps).accepted[|s.accepted|..], steps, base, Origins(steps, base))
    decreases |steps|
  {
    hide *;
    if steps == [] {
      NoOrigins(s, steps, base);
    } else {
      FirstStep(s, steps, base);
      var next, later := Apply(s, steps[0]), Origins(steps[1..], base + 1);
      var all := Run(s, steps).accepted;
      AcceptedHaveOrigins(next, steps[1..], base + 1);
      var rest := all[|next.accepted|..];
      Later(rest, steps, base, later);
      if Posts(steps[0]) {
        var item := PostedItem(s, steps, base);
        OneMore(item, rest, steps, base, later);
        assert all[|s.accepted|..] == [item] + rest;
      } else {
        NothingPosted(s, steps[0]);
        assert [] + later == later;
      }
    }
  }

  lemma {:induction false} PublishedHaveText(log: seq<Record>)
    requires forall r | r in log && r.outcome == Published :: r.item.text.Some?
    ensures forall item | item in PublishedItems(log) :: item.text.Some?
  {
    if log != [] {
      assert log[0] in log;
      assert forall r | r in log[1..] :: r in log;
      PublishedHaveText(log[1..]);
    }
  }

  /** Which steps posted the published messages: their numbers increase, so the order is kept. */
  lemma PublishedOrigins(steps: seq<Step>) returns (ks: seq<nat>)
    requires CanRun(INITIAL, steps)
    ensures var published := PublishedItems(Run(INITIAL, steps).log);
      && |ks| == |published|
      && (forall i, j | 0 <= i < j < |ks| :: ks[i] < ks[j])
      && (forall i | 0 <= i < |ks| ::
            && ks[i] < |steps| && Posts(steps[ks[i]])
            && published[i].text == Some(CString(steps[ks[i]].request.data))
            && var r := steps[ks[i]].request;
               published[i].topic == Topic(r.product, r.device, r.suffix))
  {
    var s := Run(INITIAL, steps);
    var published, origins := PublishedItems(s.log), Origins(steps, 0);
    PublishedInOrderOnce(steps);
    assert published == PublishedItems(Run(INITIAL, steps).log);
    assert PostedFrom(s.accepted, steps, 0, origins) by {
      AcceptedHaveOrigins(INITIAL, steps, 0);
      assert s.accepted[|INITIAL.accepted|..] == s.accepted;
    }
    assert forall item | item in published :: item.text.Some? by {
      InitialInv();
      RunKeepsInv(INITIAL, steps);
      PublishedHaveText(s.log);
    }
    hide Run, CanRun, PublishedItems, Origins, Posts, Topic, CString;
    ks := seq(|published|, i requires 0 <= i < |published| => origins[published[i].id]);
    forall i | 0 <= i < |ks|
      ensures ks[i] < |steps| && Posts(steps[ks[i]])
      ensures published[i].text.Some? && PostedAs(published[i], steps[ks[i]].request)
    {
      assert published[i] in published;
      assert PostedAt(s.accepted[published[i].id], steps, 0, origins[published[i].id]);
    }
  }

  /** What mosquitto took are the posted texts, byte for byte, under their topics, in the order they were posted. */
  lemma TakenWerePosted(sender: Sender, steps: seq<Step>) returns (ks: seq<nat>)
    requires sender.Consistent() && CanRun(INITIAL, steps) && sender.model == Run(INITIAL, steps)
    ensures var taken := Taken(sender.calls);
      && |ks| == |taken|
      && (forall i, j | 0 <= i < j < |ks| :: ks[i] < ks[j])
      && (forall i | 0 <= i < |ks| ::
            && ks[i] < |steps| && Posts(steps[ks[i]])
            && var r := steps[ks[i]].request;
               taken[i].payload == CString(r.data) && taken[i].topic == Topic(r.product, r.device, r.suffix))
  {
    TakenArePublished(sender.model.log);
    ks := PublishedOrigins(steps);
    hide Backs, Taken, Calls, PublishedItems, Run, CanRun, Topic, CString;
  }

  /** What a receiver gets from a published text, whatever its own buffers held before. */
  ghost predicate Receives(c: Cipher, text: seq<bv8>, holdBack: bool, json: seq<bv8>) {
    forall before: Before | Fits(before, text) :: Recovers(Decrypt(c, text, true, holdBack, before), json)
  }

  lemma ReceiverSide(c: Cipher, json: seq<bv8>)
    requires Bijection(c)
    ensures Receives(c, Text(c, json), false, json)
    ensures Receives(c, Text(c, json), true, json)
      <==> !EndsOnBoundary(json, true) || (EndsInZero(json) && |json| % 16 == 0)
  {
    var text := Text(c, json);
    assert text == Sent(c, json, true);
    var some := Before(seq(|text|, _ => 0), seq(|text|, _ => 0), 0);
    assert Fits(some, text);
    hide Decrypt, Recovers, Text, Ciphertext, Fits, EndsInZero, EndsOnBoundary, Sent;
    forall before: Before | Fits(before, text)
      ensures Recovers(Decrypt(c, text, true, false, before), json)
      ensures Recovers(Decrypt(c, text, true, true, before), json)
        <==> !EndsOnBoundary(json, true) || (EndsInZero(json) && |json| % 16 == 0)
    {
      RoundTripWithoutHoldBack(c, json, true, before);
      RoundTrip(c, json, true, before);
    }
    assert Receives(c, text, true, json) ==> Recovers(Decrypt(c, text, true, true, some), json);
  }

  // ---------- everything the two threads may do ----------

  /** A JSON text is posted, the 10 ms timer fires, or callbacks arrive in between. */
  datatype Event =
    | Post(printed: seq<bv8>, request: Request)
    | Drain(schedule: Schedule)
    | Callbacks(callbacks: seq<Callback>)

  /** The steps an event stands for in a given state. */
  function Plan(c: Cipher, event: Event, s: State): seq<Step> {
    match event
    case Post(printed, request) => [Enqueue(request.(data := Text(c, CString(printed))))]
    case Drain(schedule) => Script(schedule, |s.queue|)
    case Callbacks(callbacks) => callbacks
  }

  /** The state the events lead to; once the process has exited it stays as it is. */
  function Execution(c: Cipher, s: State, events: seq<Event>): State
    decreases |events|
  {
    if events == [] then s else Execution(c, Perform(s, Plan(c, events[0], s)), events[1..])
  }

  lemma {:induction false} ExitedExecution(c: Cipher, s: State, events: seq<Event>)
    requires s.exited || events == []
    ensures Execution(c, s, events) == s
    decreases |events|
  {
    if events != [] {
      ExitedExecution(c, s, events[1..]);
    }
  }

  lemma NextEvent(c: Cipher, s: State, events: seq<Event>, i: nat, more: seq<Step>)
    requires i < |events| && CanRun(s, more) && more <= Plan(c, events[i], s)
    requires more == Plan(c, events[i], s) || Run(s, more).exited
    ensures Execution(c, s, events[i..]) == Execution(c, Run(s, more), events[i + 1..])
  {
    assert events[i..][1..] == events[i + 1..];
    PerformIsRun(s, more, Plan(c, events[i], s));
    hide Plan, Run, CanRun, Perform;
  }

  lemma PlanMeaning(c: Cipher, event: Event, s: State)
    ensures match event
      case Post(printed, request) => Plan(c, event, s) == [Enqueue(request.(data := Text(c, CString(printed))))]
      case Drain(schedule) => Plan(c, event, s) == Script(schedule, |s.queue|)
      case Callbacks(callbacks) => Plan(c, event, s) == callbacks
  {
  }

  /** The k-th step was taken in the course of event `origin[k]`, and every enqueue is a post of its own. */
  ghost predicate Traced(c: Cipher, events: seq<Event>, n: nat, steps: seq<Step>, origin: seq<nat>)
    requires n <= |events|
  {
    && |origin| == |steps|
    && (forall k | 0 <= k < |steps| :: origin[k] < n)
    && (forall k, l | 0 <= k < l < |steps| && steps[l].Enqueue? :: origin[k] < origin[l])
    && (forall k | 0 <= k < |steps| && steps[k].Enqueue? :: PostsEvent(c, events[origin[k]], steps[k].request))
  }

  predicate PostsEvent(c: Cipher, event: Event, request: Request) {
    event.Post? && request == event.request.(data := Text(c, CString(event.printed)))
  }

  lemma TracedNothing(c: Cipher, events: seq<Event>)
    ensures Traced(c, events, 0, [], [])
  {
  }

  lemma TracedMore(c: Cipher, events: seq<Event>, n: nat, steps: seq<Step>, origin: seq<nat>, more: seq<Step>)
    returns (origin': seq<nat>)
    requires n < |events| && Traced(c, events, n, steps, origin)
    requires Quiet(more) || (|more| == 1 && more[0].Enqueue? && PostsEvent(c, events[n], more[0].request))
    ensures Traced(c, events, n + 1, steps + more, origin')
  {
    origin' := origin + seq(|more|, _ => n);
    hide PostsEvent;
    assert forall k | |steps| <= k < |steps + more| :: (steps + more)[k] == more[k - |steps|];
    assert Quiet(more) ==> forall k | 0 <= k < |more| :: more[k] in more;
  }

  /**
   What a receiver can read: the i-th message came under the topic of event `ks[i]`, in which, if all
   of it fits, the product and the device stand where a reader expects them; and its payload is the
   JSON text posted by that event.  With a primitive that returns all whole blocks it can read every one, and with the code's own decryption
   exactly those whose encoding leaves no block held back.
   */
  ghost predicate Readable(c: Cipher, events: seq<Event>, taken: seq<Call>, ks: seq<nat>) {
    && |ks| == |taken|
    && (forall i, j | 0 <= i < j < |ks| :: ks[i] < ks[j])
    && (forall i | 0 <= i < |ks| ::
          && ks[i] < |events| && events[ks[i]].Post?
          && TopicOf(taken[i].topic, events[ks[i]].request)
          && var json := CString(events[ks[i]].printed);
             && Receives(c, taken[i].payload, false, json)
             && (Receives(c, taken[i].payload, true, json) <==> !EndsOnBoundary(json, true)))
  }

  ghost predicate TopicOf(topic: string, r: Request) {
    && topic == Topic(r.product, r.device, r.suffix)
    && ('/' !in r.product && '/' !in r.device && 8 + |r.product| + |r.device| + |r.suffix| < 80 ==>
          Split(topic) == ["", "paas", r.product, r.device] + Split(r.suffix))
  }

  lemma TopicOfRequest(r: Request)
    ensures TopicOf(Topic(r.product, r.device, r.suffix), r)
  {
    hide Topic, Split;
    if '/' !in r.product && '/' !in r.device && 8 + |r.product| + |r.device| + |r.suffix| < 80 {
      TopicReads(r.product, r.device, r.suffix);
    }
  }

  lemma PostedPayload(c: Cipher, event: Event, request: Request)
    requires Bijection(c) && PostsEvent(c, event, request)
    ensures event.Post? && TopicOf(Topic(request.product, request.device, request.suffix), event.request)
    ensures var json := CString(event.printed);
      && Receives(c, CString(request.data), false, json)
      && (Receives(c, CString(request.data), true, json) <==> !EndsOnBoundary(json, true))
  {
    var json, data := CString(event.printed), request.data;
    TopicOfRequest(event.request);
    hide TopicOf, Topic;
    assert 0 !in json;
    assert Text(c, json) == EncodeBlock(Ciphertext(c, json));
    EncodingHasNoZero(Ciphertext(c, json));
    CStringWhole(data);
    assert !EndsInZero(json);
    hide *;
    ReceiverSide(c, json);
  }

  /** What mosquitto took in a traced run is readable, in the order of posting. */
  lemma ReceiverReadsWhatWasPosted(sender: Sender, c: Cipher, events: seq<Event>, n: nat, steps: seq<Step>, origin: seq<nat>)
    returns (ks: seq<nat>)
    requires sender.Consistent() && CanRun(INITIAL, steps) && sender.model == Run(INITIAL, steps)
    requires Bijection(c) && n <= |events| && Traced(c, events, n, steps, origin)
    ensures Readable(c, events, Taken(sender.calls), ks)
  {
    var places := TakenWerePosted(sender, steps);
    var taken := Taken(sender.calls);
    hide CString, Taken, Receives, EndsOnBoundary, PostsEvent, Run, CanRun, Bijection, Topic, TopicOf;
    ks := seq(|taken|, i requires 0 <= i < |taken| => origin[places[i]]);
    forall i | 0 <= i < |ks|
      ensures events[ks[i]].Post? && TopicOf(taken[i].topic, events[ks[i]].request)
      ensures var json := CString(events[ks[i]].printed);
        && Receives(c, taken[i].payload, false, json)
        && (Receives(c, taken[i].payload, true, json) <==> !EndsOnBoundary(json, true))
    {
      var step := steps[places[i]];
      PostedPayload(c, events[ks[i]], step.request);
    }
  }

  /**
   End to end: the process starts, JSON texts are posted, timers fire and callbacks arrive, in any
   order, until the events are over or a callback ends the process.  The state reached is the one the
   state machine gives, and what mosquitto took by then a receiver can decrypt: JSON texts that were
   posted, in the order of posting, each at most once.
   */
  method Session(c: Cipher, events: seq<Event>) returns (sender: Sender, ghost ks: seq<nat>)
    requires Bijection(c)
    ensures fresh(sender) && sender.Consistent()
    ensures sender.model == Execution(c, INITIAL, events)
    ensures Readable(c, events, Taken(sender.calls), ks)
  {
    hide *;
    sender := new Sender();
    ghost var steps: seq<Step>, origin: seq<nat> := [], [];
    NothingRun();
    TracedNothing(c, events);
    var i := 0;
    assert events[0..] == events;
    sender.ExitedInModel();
    while i < |events| && !sender.exited
      invariant i <= |events| && sender.Consistent() && (!sender.exited ==> sender.Valid())
      invariant fresh(sender) && fresh(sender.messages) && forall x | x in sender.nodes :: fresh(x)
      invariant CanRun(INITIAL, steps) && sender.model == Run(INITIAL, steps)
      invariant Traced(c, events, i, steps, origin)
      invariant Execution(c, INITIAL, events) == Execution(c, sender.model, events[i..])
      invariant sender.exited == sender.model.exited
    {
      PlanMeaning(c, events[i], sender.model);
      ghost var more: seq<Step>, before := [], sender.model;
      sender.BetweenCalls();
      match events[i] {
        case Post(printed, request) =>
          var buffer := new bv8[|printed|](j requires 0 <= j < |printed| => printed[j]);
          assert buffer[..] == printed;
          PostData(sender, buffer, c, request);
          sender.BetweenCalls();
          more := [Enqueue(request.(data := Text(c, CString(printed))))];
          OneStep(before, more[0]);
          IsEvent(c, events[i], more[0].request);
        case Drain(schedule) =>
          ghost var freed, nodes := [], sender.nodes;
          forall j | 0 <= j < |nodes| ensures fresh(nodes[j]) {
            assert nodes[j] in sender.nodes;
          }
          more, freed := sender.MqttSendRun(schedule);
          assert forall x | x in sender.nodes :: x in freed + sender.nodes;
        case Callbacks(callbacks) =>
          more := sender.RunCallbacks(callbacks);
          sender.MakeValid();
      }
      sender.ExitedInModel();
      NextEvent(c, before, events, i, more);
      RunConcat(INITIAL, steps, more);
      origin := TracedMore(c, events, i, steps, origin, more);
      steps := steps + more;
      i := i + 1;
    }
    ExitedExecution(c, sender.model, events[i..]);
    ks := ReceiverReadsWhatWasPosted(sender, c, events, i, steps, origin);
  }

  lemma NothingRun()
    ensures CanRun(INITIAL, []) && Run(INITIAL, []) == INITIAL
  {
  }

  lemma OneStep(s: State, step: Step)
    requires Enabled(s, step)
    ensures CanRun(s, [step]) && Run(s, [step]) == Apply(s, step)
  {
    Extend(s, [], step);
    assert [] + [step] == [step];
  }

  lemma IsEvent(c: Cipher, event: Event, request: Request)
    requires event.Post? && request == event.request.(data := Text(c, CString(event.printed)))
    ensures PostsEvent(c, event, request)
  {
  }
}
