/**
 The outgoing telemetry queue of `src/json.c` and `src/mqtt.c` as a state machine.

 Enqueueing and draining run on the uloop thread and do not interleave with each other; the
 connect and disconnect callbacks run on the mosquitto thread and may come between any two steps,
 in particular between two messages of one drain.  `log` and `accepted` are history: what became
 of each message, and every message ever put on the queue.
 */
module Telemetry {
  import opened Memory

  datatype Option<T> = None | Some(value: T)

  /** A queued message, numbered in the order of acceptance; its text is None if strdup failed. */
  datatype Item = Item(id: nat, text: Option<seq<bv8>>, topic: string)

  datatype Outcome = Published | PublishFailed(rc: int) | Offline | Unsupported | NoText

  datatype Record = Record(item: Item, outcome: Outcome)

  datatype State = State(
    connected: bool,
    draining: bool,
    exited: bool,
    queue: seq<Item>,
    log: seq<Record>,
    accepted: seq<Item>)

  const INITIAL := State(false, false, false, [], [], [])

  /** What cjson_msg_add finds when it is called; `data` is a buffer that holds a C string. */
  datatype Request = Request(
    knownId: string,
    product: string,
    device: string,
    suffix: string,
    data: seq<bv8>,
    mallocOk: bool,
    strdupOk: bool)

  datatype Step =
    | Enqueue(request: Request)
    | Connect(ours: bool, rc: int)
    | Disconnect(ours: bool)
    | BeginDrain
    | Handle(rc: int)
    | EndDrain

  /** What the mosquitto thread may do; `ours` says whether it is for our client. */
  type Callback = step: Step | step.Connect? || step.Disconnect? witness Disconnect(false)

  // ---------- topics ----------

  const TOPIC_MAX_LEN: nat := 80

  /** snprintf into a buffer of the given size keeps what fits before the terminator. */
  function Fit(s: string, size: nat): (r: string)
    requires size > 0
    ensures r <= s && |r| < size
  {
    if |s| < size then s else s[..size - 1]
  }

  function Topic(product: string, device: string, suffix: string): string {
    Fit("/paas/" + product + "/" + device + "/" + suffix, TOPIC_MAX_LEN)
  }

  predicate Supported(topic: string) {
    "/paas/" <= topic
  }

  /** However long the names are, truncation keeps the prefix that publishing asks for. */
  lemma TopicSupported(product: string, device: string, suffix: string)
    ensures Supported(Topic(product, device, suffix))
    ensures "/paas/" <= Topic(product, device, suffix)
  {
    var whole := "/paas/" + product + "/" + device + "/" + suffix;
    assert whole[..6] == "/paas/";
    assert |Topic(product, device, suffix)| >= 6;
  }

  /** Character by character, as far as the topic goes: it is cut behind 79 characters. */
  lemma TopicLayout(product: string, device: string, suffix: string)
    ensures var t := Topic(product, device, suffix);
      var d := 7 + |product|;
      var s := d + |device| + 1;
      && |t| == (if s + |suffix| <= 79 then s + |suffix| else 79)
      && t[..6] == "/paas/"
      && (forall i | 0 <= i < |product| && 6 + i < |t| :: t[6 + i] == product[i])
      && (d - 1 < |t| ==> t[d - 1] == '/')
      && (forall i | 0 <= i < |device| && d + i < |t| :: t[d + i] == device[i])
      && (s - 1 < |t| ==> t[s - 1] == '/')
      && (forall i | 0 <= i < |suffix| && s + i < |t| :: t[s + i] == suffix[i])
  {
    TopicSupported(product, device, suffix);
    assert Topic(product, device, suffix)[..6] == "/paas/";
  }

  /** The levels of a topic, as a reader who splits it at the slashes sees them. */
  function Split(topic: string): (levels: seq<string>)
    ensures levels != [] && Join(levels) == topic
    ensures forall level | level in levels :: '/' !in level
  {
    if topic == [] then [""]
    else
      var rest := Split(topic[1..]);
      if topic[0] == '/' then [""] + rest else [[topic[0]] + rest[0]] + rest[1..]
  }

  function Join(levels: seq<string>): string
    requires levels != []
  {
    if |levels| == 1 then levels[0] else levels[0] + "/" + Join(levels[1..])
  }

  lemma {:induction false} SplitLevel(level: string, rest: string)
    requires '/' !in level
    ensures Split(level + "/" + rest) == [level] + Split(rest)
  {
    var topic := level + "/" + rest;
    if level == [] {
      assert topic[0] == '/' && topic[1..] == rest;
    } else {
      assert topic[0] == level[0] && topic[1..] == level[1..] + "/" + rest;
      SplitLevel(level[1..], rest);
      assert [level[0]] + level[1..] == level;
    }
  }

  /** A reader finds the product under the first level, then the device, then the configured suffix. */
  lemma TopicReads(product: string, device: string, suffix: string)
    requires '/' !in product && '/' !in device && 8 + |product| + |device| + |suffix| < 80
    ensures Split(Topic(product, device, suffix)) == ["", "paas", product, device] + Split(suffix)
  {
    hide *;
    var names := product + "/" + (device + "/" + suffix);
    TopicWhole(product, device, suffix);
    SplitLevel("", "paas" + "/" + names);
    SplitLevel("paas", names);
    SplitLevel(product, device + "/" + suffix);
    SplitLevel(device, suffix);
    Levels("", "paas", product, device, Split(suffix));
  }

  lemma Levels(a: string, b: string, c: string, d: string, rest: seq<string>)
    ensures [a] + ([b] + ([c] + ([d] + rest))) == [a, b, c, d] + rest
  {
  }

  lemma TopicWhole(product: string, device: string, suffix: string)
    requires 8 + |product| + |device| + |suffix| < 80
    ensures Topic(product, device, suffix) == "" + "/" + ("paas" + "/" + (product + "/" + (device + "/" + suffix)))
  {
    assert "/paas/" == "/" + "paas" + "/";
    Nested("/", "paas", product, device, suffix);
  }

  lemma Nested(slash: string, a: string, b: string, c: string, d: string)
    ensures slash + a + slash + b + slash + c + slash + d == "" + slash + (a + slash + (b + slash + (c + slash + d)))
  {
  }

  // ---------- one step ----------

  predicate Accepts(r: Request) {
    r.knownId != "" && r.mallocOk
  }

  function NewItem(id: nat, r: Request): Item {
    Item(id, if r.strdupOk then Some(CString(r.data)) else None, Topic(r.product, r.device, r.suffix))
  }

  /** do_tty_msg_publish: mosquitto is asked only for a supported topic while connected. */
  function Publish(connected: bool, topic: string, rc: int): Outcome {
    if !Supported(topic) then Unsupported
    else if !connected then Offline
    else if rc == 0 then Published
    else PublishFailed(rc)
  }

  /** What the drain does with one message. */
  function Deliver(connected: bool, item: Item, rc: int): Outcome {
    if item.text.None? then NoText else Publish(connected, item.topic, rc)
  }

  predicate Enabled(s: State, step: Step) {
    !s.exited && match step
      case Enqueue(_) => !s.draining
      case Connect(_, _) => true
      case Disconnect(_) => true
      case BeginDrain => !s.draining
      case Handle(_) => s.draining && s.queue != []
      case EndDrain => s.draining && s.queue == []
  }

  function Apply(s: State, step: Step): State
    requires Enabled(s, step)
  {
    match step
    case Enqueue(r) =>
      if Accepts(r) then
        var item := NewItem(|s.accepted|, r);
        s.(queue := s.queue + [item], accepted := s.accepted + [item])
      else s
    case Connect(ours, rc) =>
      if rc != 0 then s.(exited := true) else if ours then s.(connected := true) else s
    case Disconnect(ours) =>
      if ours then s.(connected := false) else s
    case BeginDrain => s.(draining := true)
    case Handle(rc) =>
      s.(queue := s.queue[1..], log := s.log + [Record(s.queue[0], Deliver(s.connected, s.queue[0], rc))])
    case EndDrain => s.(draining := false)
  }

  /** What becomes of a message. */
  lemma DeliverCases(connected: bool, item: Item, rc: int)
    ensures var o := Deliver(connected, item, rc);
      && (item.text.None? ==> o == NoText)
      && (item.text.Some? && !("/paas/" <= item.topic) ==> o == Unsupported)
      && (item.text.Some? && "/paas/" <= item.topic && !connected ==> o == Offline)
      && (item.text.Some? && "/paas/" <= item.topic && connected ==> o == if rc == 0 then Published else PublishFailed(rc))
  {
  }

  lemma EnqueueMeaning(s: State, r: Request)
    requires Enabled(s, Enqueue(r))
    ensures var item := NewItem(|s.accepted|, r);
      Apply(s, Enqueue(r)) ==
        if Accepts(r) then s.(queue := s.queue + [item], accepted := s.accepted + [item]) else s
  {
  }

  lemma HandleMeaning(s: State, rc: int)
    requires Enabled(s, Handle(rc))
    ensures var item := s.queue[0];
      Apply(s, Handle(rc)) ==
        s.(queue := s.queue[1..], log := s.log + [Record(item, Deliver(s.connected, item, rc))])
  {
  }

  // ---------- runs ----------

  predicate CanRun(s: State, steps: seq<Step>)
    decreases |steps|
  {
    steps == [] || (Enabled(s, steps[0]) && CanRun(Apply(s, steps[0]), steps[1..]))
  }

  function Run(s: State, steps: seq<Step>): State
    requires CanRun(s, steps)
    decreases |steps|
  {
    if steps == [] then s else Run(Apply(s, steps[0]), steps[1..])
  }

  lemma {:induction false} RunConcat(s: State, a: seq<Step>, b: seq<Step>)
    requires CanRun(s, a) && CanRun(Run(s, a), b)
    ensures CanRun(s, a + b) && Run(s, a + b) == Run(Run(s, a), b)
    decreases |a|
  {
    if a == [] {
      assert a + b == b;
    } else {
      assert (a + b)[1..] == a[1..] + b;
      RunConcat(Apply(s, a[0]), a[1..], b);
    }
  }

  // ---------- the invariant ----------

  function Items(log: seq<Record>): (items: seq<Item>)
    ensures |items| == |log|
    ensures forall i | 0 <= i < |log| :: items[i] == log[i].item
  {
    seq(|log|, i requires 0 <= i < |log| => log[i].item)
  }

  /** The log followed by the queue is exactly the history of acceptance, message by message. */
  ghost predicate Inv(s: State) {
    && s.accepted == Items(s.log) + s.queue
    && (forall i | 0 <= i < |s.accepted| ::
          && s.accepted[i].id == i && Supported(s.accepted[i].topic)
          && (s.accepted[i].text.Some? ==> 0 !in s.accepted[i].text.value))
    && (forall r | r in s.log ::
          && r.outcome != Unsupported && r.outcome != PublishFailed(0)
          && (r.outcome == NoText <==> r.item.text == None))
  }

  lemma StepKeepsInv(s: State, step: Step)
    requires Inv(s) && Enabled(s, step)
    ensures Inv(Apply(s, step))
  {
    match step
    case Enqueue(r) =>
      TopicSupported(r.product, r.device, r.suffix);
      hide Topic, Supported;
    case Handle(rc) =>
      hide Supported;
      assert s.queue[0] == s.accepted[|s.log|];
      assert Items(Apply(s, step).log) == Items(s.log) + [s.queue[0]];
    case Connect(_, _) =>
    case Disconnect(_) =>
    case BeginDrain =>
    case EndDrain =>
  }

  lemma {:induction false} RunKeepsInv(s: State, steps: seq<Step>)
    requires Inv(s) && CanRun(s, steps)
    ensures Inv(Run(s, steps))
    decreases |steps|
  {
    hide Inv, Apply, Enabled;
    if steps != [] {
      StepKeepsInv(s, steps[0]);
      RunKeepsInv(Apply(s, steps[0]), steps[1..]);
    }
  }

  lemma InitialInv()
    ensures Inv(INITIAL)
  {
  }

  // ---------- no message is lost and none is sent twice ----------

  function Below(n: nat): (all: set<nat>)
    ensures |all| == n
    ensures forall i: nat :: i in all <==> i < n
  {
    if n == 0 then {} else Below(n - 1) + {n - 1}
  }

  lemma FourParts(all: set<nat>, p: set<nat>, f: set<nat>, o: set<nat>, n: set<nat>)
    requires forall i | i in all :: i in p || i in f || i in o || i in n
    requires forall i | i in p :: i in all && i !in f && i !in o && i !in n
    requires forall i | i in f :: i in all && i !in o && i !in n
    requires forall i | i in o :: i in all && i !in n
    requires forall i | i in n :: i in all
    ensures |all| == |p| + |f| + |o| + |n|
  {
    assert all == p + (f + (o + n));
    assert p !! (f + (o + n)) && f !! (o + n) && o !! n;
  }

  /** Every record has one of the four outcomes. */
  lemma EveryRecordCounted(log: seq<Record>)
    requires forall r | r in log :: r.outcome != Unsupported
    ensures |log| == |set i: nat | i < |log| && log[i].outcome == Published|
                   + |set i: nat | i < |log| && log[i].outcome.PublishFailed?|
                   + |set i: nat | i < |log| && log[i].outcome == Offline|
                   + |set i: nat | i < |log| && log[i].outcome == NoText|
  {
    var p := set i: nat | i < |log| && log[i].outcome == Published;
    var f := set i: nat | i < |log| && log[i].outcome.PublishFailed?;
    var o := set i: nat | i < |log| && log[i].outcome == Offline;
    var n := set i: nat | i < |log| && log[i].outcome == NoText;
    forall i | i in Below(|log|) ensures i in p || i in f || i in o || i in n {
      assert log[i] in log;
    }
    FourParts(Below(|log|), p, f, o, n);
  }

  /**
   On every run every accepted message is accounted for: published, refused by mosquitto,
   dropped while offline, empty, or still queued.
   */
  lemma Conservation(steps: seq<Step>)
    requires CanRun(INITIAL, steps)
    ensures var s := Run(INITIAL, steps);
      |s.accepted| == |set i: nat | i < |s.log| && s.log[i].outcome == Published|
                    + |set i: nat | i < |s.log| && s.log[i].outcome.PublishFailed?|
                    + |set i: nat | i < |s.log| && s.log[i].outcome == Offline|
                    + |set i: nat | i < |s.log| && s.log[i].outcome == NoText|
                    + |s.queue|
  {
    hide Run;
    InitialInv();
    RunKeepsInv(INITIAL, steps);
    EveryRecordCounted(Run(INITIAL, steps).log);
  }

  /** The messages published, in the order of publication. */
  function PublishedItems(log: seq<Record>): seq<Item> {
    if log == [] then []
    else (if log[0].outcome == Published then [log[0].item] else []) + PublishedItems(log[1..])
  }

  /** A record with that outcome contributes its item, any other nothing, and the order is that of the log. */
  lemma {:induction false} PublishedAppend(log: seq<Record>, r: Record)
    ensures PublishedItems([]) == []
    ensures PublishedItems(log + [r]) == PublishedItems(log) + if r.outcome == Published then [r.item] else []
  {
    if log == [] {
      assert log + [r] == [r] && [r][1..] == [];
    } else {
      var more := log[1..] + [r];
      assert (log + [r])[0] == log[0] && (log + [r])[1..] == more;
      PublishedAppend(log[1..], r);
      var first := if log[0].outcome == Published then [log[0].item] else [];
      assert PublishedItems(log + [r]) == first + PublishedItems(more);
      assert PublishedItems(log) == first + PublishedItems(log[1..]);
      hide PublishedItems;
    }
  }

  /** The item stands in the log at the place its number says, when the log starts at `base`. */
  predicate InPlace(item: Item, log: seq<Record>, base: nat) {
    base <= item.id < base + |log| && log[item.id - base].item == item
  }

  /** Increasing numbers, each item standing in the log under its own number. */
  ghost predicate InOrder(p: seq<Item>, log: seq<Record>, base: nat) {
    && (forall i, j | 0 <= i < j < |p| :: p[i].id < p[j].id)
    && (forall i | 0 <= i < |p| :: InPlace(p[i], log, base))
  }

  lemma InOrderPrepend(q: seq<Item>, log: seq<Record>, base: nat)
    requires log != [] && log[0].item.id == base && InOrder(q, log[1..], base + 1)
    ensures InOrder(q, log, base) && InOrder([log[0].item] + q, log, base)
  {
    var rest, p := log[1..], [log[0].item] + q;
    forall i | 0 <= i < |q| ensures InPlace(q[i], log, base) && q[i].id > base {
      assert InPlace(q[i], rest, base + 1);
      var k := q[i].id - base - 1;
      assert rest[k] == log[k + 1];
    }
    forall i | 0 <= i < |p| ensures InPlace(p[i], log, base) {
      if i > 0 {
        assert p[i] == q[i - 1];
      }
    }
  }

  lemma {:induction false} PublishedFrom(log: seq<Record>, base: nat)
    requires forall i | 0 <= i < |log| :: log[i].item.id == base + i
    ensures InOrder(PublishedItems(log), log, base)
    decreases |log|
  {
    hide InOrder;
    if log == [] {
      NothingInOrder(base);
    } else {
      var rest := log[1..];
      forall i | 0 <= i < |rest| ensures rest[i].item.id == base + 1 + i {
        assert rest[i] == log[i + 1];
      }
      PublishedFrom(rest, base + 1);
      InOrderPrepend(PublishedItems(rest), log, base);
      assert [] + PublishedItems(rest) == PublishedItems(rest);
    }
  }

  lemma NothingInOrder(base: nat)
    ensures InOrder([], [], base)
  {
  }

  /**
   On every run the published messages are a subsequence of the accepted ones, in the same order:
   their numbers increase strictly, so none is published twice, and each is the message accepted
   under that number.
   */
  lemma PublishedInOrderOnce(steps: seq<Step>)
    requires CanRun(INITIAL, steps)
    ensures var s := Run(INITIAL, steps);
      var p := PublishedItems(s.log);
      && (forall i, j | 0 <= i < j < |p| :: p[i].id < p[j].id)
      && (forall i | 0 <= i < |p| :: p[i].id < |s.accepted| && p[i] == s.accepted[p[i].id])
  {
    hide PublishedItems, Run, Supported;
    InitialInv();
    RunKeepsInv(INITIAL, steps);
    var s := Run(INITIAL, steps);
    forall i | 0 <= i < |s.log| ensures s.log[i].item == s.accepted[i] {
      assert s.accepted[i] == Items(s.log)[i];
    }
    PublishedFrom(s.log, 0);
    var p := PublishedItems(s.log);
    forall i | 0 <= i < |p| ensures p[i].id < |s.accepted| && p[i] == s.accepted[p[i].id] {
      assert InPlace(p[i], s.log, 0);
    }
  }

  /** History only grows: what became of a message is never revised. */
  lemma {:induction false} HistoryGrows(s: State, steps: seq<Step>)
    requires CanRun(s, steps)
    ensures s.log <= Run(s, steps).log && s.accepted <= Run(s, steps).accepted
    decreases |steps|
  {
    if steps != [] {
      HistoryGrows(Apply(s, steps[0]), steps[1..]);
    }
  }

  // ---------- the connection flag ----------

  /** The flag as the last disconnect or successful connect of our own client left it. */
  function LastFlag(connected: bool, steps: seq<Step>): bool
    decreases |steps|
  {
    if steps == [] then connected
    else match steps[|steps| - 1]
      case Connect(true, 0) => true
      case Disconnect(true) => false
      case _ => LastFlag(connected, steps[..|steps| - 1])
  }

  lemma {:induction false} FlagIsLastCallback(s: State, steps: seq<Step>)
    requires CanRun(s, steps)
    ensures Run(s, steps).connected == LastFlag(s.connected, steps)
    decreases |steps|
  {
    if steps != [] {
      var init, last := steps[..|steps| - 1], steps[|steps| - 1];
      assert steps == init + [last];
      SplitRun(s, init, [last]);
      var mid := Run(s, init);
      assert Run(mid, [last]) == Apply(mid, last);
      FlagIsLastCallback(s, init);
    }
  }

  /** The process ends with a connect that was refused, whoever's it was, and with nothing else. */
  lemma {:induction false} ExitMeansRefused(s: State, steps: seq<Step>)
    requires CanRun(s, steps) && !s.exited
    ensures Run(s, steps).exited <==> exists k :: 0 <= k < |steps| && steps[k].Connect? && steps[k].rc != 0
    ensures forall k | 0 <= k < |steps| - 1 :: steps[k].Connect? ==> steps[k].rc == 0
    decreases |steps|
  {
    if steps != [] {
      var next, rest := Apply(s, steps[0]), steps[1..];
      assert next.exited <==> steps[0].Connect? && steps[0].rc != 0;
      if next.exited {
        assert rest == [];
        assert Run(s, steps) == next;
      } else {
        ExitMeansRefused(next, rest);
        assert forall k | 0 < k < |steps| :: steps[k] == rest[k - 1];
        assert forall k | 0 <= k < |rest| :: rest[k] == steps[k + 1];
        assert Run(s, steps) == Run(next, rest);
        hide Run, CanRun, Apply, Enabled;
      }
    }
  }

  lemma {:induction false} SplitRun(s: State, a: seq<Step>, b: seq<Step>)
    requires CanRun(s, a + b)
    ensures CanRun(s, a) && CanRun(Run(s, a), b) && Run(s, a + b) == Run(Run(s, a), b)
    decreases |a|
  {
    hide Apply, Enabled;
    if a == [] {
      assert a + b == b;
    } else {
      assert (a + b)[0] == a[0] && (a + b)[1..] == a[1..] + b;
      SplitRun(Apply(s, a[0]), a[1..], b);
    }
  }

  /**
   Wherever in a drain the callbacks fall, a message with a text is published exactly when the
   last callback of our client before it was a connect and mosquitto takes it.
   */
  lemma PublishedIffConnected(s: State, steps: seq<Step>, rc: int)
    requires Inv(s) && CanRun(s, steps + [Handle(rc)])
    ensures var t := Run(s, steps + [Handle(rc)]);
      && t.log != []
      && var r := t.log[|t.log| - 1];
         r.item.text.Some? ==> (r.outcome == Published <==> LastFlag(s.connected, steps) && rc == 0)
  {
    SplitRun(s, steps, [Handle(rc)]);
    var mid := Run(s, steps);
    RunKeepsInv(s, steps);
    FlagIsLastCallback(s, steps);
    assert mid.queue[0] == mid.accepted[|mid.log|];
    assert Run(mid, [Handle(rc)]) == Apply(mid, Handle(rc));
  }

  // ---------- scripts ----------

  /** A script is carried out until it ends or a step is not possible, as after the process has exited. */
  function Perform(s: State, script: seq<Step>): State
    decreases |script|
  {
    if script == [] || !Enabled(s, script[0]) then s else Perform(Apply(s, script[0]), script[1..])
  }

  lemma {:induction false} PerformIsRun(s: State, trace: seq<Step>, script: seq<Step>)
    requires CanRun(s, trace) && trace <= script
    requires trace == script || Run(s, trace).exited
    ensures Perform(s, script) == Run(s, trace)
    decreases |trace|
  {
    hide Apply;
    if trace != [] {
      assert script[0] == trace[0] && trace[1..] <= script[1..];
      PerformIsRun(Apply(s, trace[0]), trace[1..], script[1..]);
    }
  }

  // ---------- one drain ----------

  function Handles(steps: seq<Step>): nat {
    if steps == [] then 0 else (if steps[0].Handle? then 1 else 0) + Handles(steps[1..])
  }

  lemma DrainStep(s: State, step: Step)
    requires s.draining && Enabled(s, step) && step != EndDrain
    ensures var t := Apply(s, step);
      && t.draining && t.accepted == s.accepted
      && if step.Handle?
         then s.queue == [s.queue[0]] + t.queue && Items(t.log) == Items(s.log) + [s.queue[0]]
         else t.queue == s.queue && t.log == s.log
  {
  }

  lemma {:induction false} InsideDrain(s: State, steps: seq<Step>)
    requires s.draining && CanRun(s, steps) && EndDrain !in steps
    ensures Handles(steps) <= |s.queue|
    ensures var t := Run(s, steps);
      && t.draining && t.accepted == s.accepted
      && t.queue == s.queue[Handles(steps)..]
      && Items(t.log) == Items(s.log) + s.queue[..Handles(steps)]
    decreases |steps|
  {
    hide Apply, Enabled, Items;
    if steps != [] {
      DrainStep(s, steps[0]);
      InsideDrain(Apply(s, steps[0]), steps[1..]);
    }
  }

  /**
   A drain that runs to its end handles every message that was queued when it began, each once and
   in order, whatever callbacks come in between, and leaves the queue empty.
   */
  lemma DrainHandlesWholeQueue(s: State, steps: seq<Step>)
    requires CanRun(s, [BeginDrain] + steps + [EndDrain]) && EndDrain !in steps
    ensures Handles(steps) == |s.queue|
    ensures var t := Run(s, [BeginDrain] + steps + [EndDrain]);
      && t.queue == [] && t.accepted == s.accepted
      && Items(t.log) == Items(s.log) + s.queue
  {
    SplitRun(s, [BeginDrain] + steps, [EndDrain]);
    SplitRun(s, [BeginDrain], steps);
    var s1 := Run(s, [BeginDrain]);
    assert s1 == Apply(s, BeginDrain);
    var s2 := Run(s1, steps);
    InsideDrain(s1, steps);
    assert Run(s2, [EndDrain]) == Apply(s2, EndDrain);
  }

  /** A run extended by one enabled step. */
  lemma Extend(s: State, steps: seq<Step>, step: Step)
    requires CanRun(s, steps) && Enabled(Run(s, steps), step)
    ensures CanRun(s, steps + [step]) && Run(s, steps + [step]) == Apply(Run(s, steps), step)
    ensures Handles(steps + [step]) == Handles(steps) + if step.Handle? then 1 else 0
  {
    var t := Run(s, steps);
    assert [step][1..] == [];
    assert CanRun(Apply(t, step), []) && Run(Apply(t, step), []) == Apply(t, step);
    RunConcat(s, steps, [step]);
    HandlesConcat(steps, [step]);
    assert Handles([]) == 0;
  }

  lemma {:induction false} HandlesConcat(a: seq<Step>, b: seq<Step>)
    ensures Handles(a + b) == Handles(a) + Handles(b)
  {
    if a == [] {
      assert a + b == b;
    } else {
      assert (a + b)[1..] == a[1..] + b;
      HandlesConcat(a[1..], b);
    }
  }
}
