/** DFU on a node: the bounded queues, and the loop that orders outgoing bodies, the reboot
    info in no-init RAM, and a reset, over a state machine that may do anything. */
module NodeDfu {
  import opened Bytes
  import opened Outcomes

  const OUTBOX_LEN := 4
  const FINISHED_LEN := 4

  /** A framed body: its type and its bytes. */
  datatype Body = Body(kind: u16, bytes: seq<byte>)

  /** What the machine asks to send; `None` is a message that does not encode. */
  datatype Message = Message(kind: u16, encoded: Option<seq<byte>>)

  datatype Finish = Finish(success: bool, err: byte, nodeId: nat)
  datatype Reset = Pending | Fail

  datatype Effect = Send(message: Message) | Finished(finish: Finish) | AskPending | AskFail

  /** `client_update_reboot_info`, encoded. */
  datatype RebootInfo = RebootInfo(encoded: seq<byte>)

  // ---------- bounded queues ----------

  /** Where the `i`th body of a ring that starts at `head` is kept. */
  function Index(head: nat, i: nat): (k: nat)
    ensures k < OUTBOX_LEN
  {
    (head + i) % OUTBOX_LEN
  }

  lemma IndexesDiffer(head: nat, i: nat, j: nat)
    requires i < j < OUTBOX_LEN
    ensures Index(head, i) != Index(head, j)
  {
  }

  lemma IndexShifts(head: nat, i: nat)
    ensures Index(Index(head, 1), i) == Index(head, i + 1)
  {
  }

  /** `Outbox`: a ring of four bodies. */
  class Outbox {
    const bodies: array<Body>
    var head: nat
    var len: nat

    ghost predicate Valid()
      reads this
    {
      bodies.Length == OUTBOX_LEN && head < OUTBOX_LEN && len <= OUTBOX_LEN
    }

    /** The bodies waiting, oldest first. */
    ghost function Contents(): (s: seq<Body>)
      requires Valid()
      reads this, bodies
      ensures |s| == len
    {
      seq(len, i requires 0 <= i < len reads this, bodies requires Valid() => bodies[Index(head, i)])
    }

    constructor ()
      ensures Valid() && fresh(bodies) && Contents() == []
    {
      bodies := new Body[OUTBOX_LEN](_ => Body(0, []));
      head, len := 0, 0;
    }

    /** A message that does not encode may leave anything in the free slot it was tried in. */
    method Push(message: Message)
      requires Valid()
      modifies this, bodies
      ensures Valid()
      ensures Contents() == if message.encoded.None? then old(Contents())
                            else Offer(old(Contents()), OUTBOX_LEN, Body(message.kind, message.encoded.value))
    {
      if len == OUTBOX_LEN {
        return;
      }
      var slot := Index(head, len);
      forall i | 0 <= i < len
        ensures Index(head, i) != slot
      {
        IndexesDiffer(head, i, len);
      }
      if message.encoded.None? {
        var garbage: seq<byte> := *;
        bodies[slot] := bodies[slot].(bytes := garbage);
        return;
      }
      bodies[slot] := Body(message.kind, message.encoded.value);
      len := len + 1;
    }

    method Pop() returns (r: Option<Body>)
      requires Valid()
      modifies this
      ensures Valid()
      ensures r.None? <==> old(Contents()) == []
      ensures r.None? ==> Contents() == old(Contents())
      ensures r.Some? ==> old(Contents()) == [r.value] + Contents()
    {
      if len == 0 {
        return None;
      }
      var body := bodies[head];
      assert old(Contents())[0] == body;
      head := Index(head, 1);
      len := len - 1;
      forall i | 0 <= i < len
        ensures Contents()[i] == old(Contents())[i + 1]
      {
        IndexShifts(old(head), i);
      }
      return Some(body);
    }
  }

  /** `Finished`: an array shifted down on every take. */
  class FinishedCalls {
    const calls: array<Option<Finish>>
    var len: nat

    ghost predicate Valid()
      reads this, calls
    {
      calls.Length == FINISHED_LEN && len <= FINISHED_LEN && forall i :: 0 <= i < len ==> calls[i].Some?
    }

    ghost function Contents(): (s: seq<Finish>)
      requires Valid()
      reads this, calls
      ensures |s| == len
    {
      seq(len, i requires 0 <= i < len reads this, calls requires Valid() => calls[i].value)
    }

    constructor ()
      ensures Valid() && fresh(calls) && Contents() == []
    {
      calls := new Option<Finish>[FINISHED_LEN](_ => None);
      len := 0;
    }

    method Push(finish: Finish)
      requires Valid()
      modifies this, calls
      ensures Valid() && Contents() == Offer(old(Contents()), FINISHED_LEN, finish)
    {
      if len < FINISHED_LEN {
        calls[len] := Some(finish);
        len := len + 1;
      }
    }

    method Pop() returns (r: Option<Finish>)
      requires Valid()
      modifies this, calls
      ensures Valid()
      ensures r.None? <==> old(Contents()) == []
      ensures r.None? ==> Contents() == old(Contents())
      ensures r.Some? ==> old(Contents()) == [r.value] + Contents()
    {
      if len == 0 {
        return None;
      }
      r := calls[0];
      var i := 0;
      while i < FINISHED_LEN - 1
        invariant 0 <= i <= FINISHED_LEN - 1 && len == old(len)
        invariant forall k :: 0 <= k < i ==> calls[k] == old(calls[k + 1])
        invariant forall k :: i <= k < FINISHED_LEN ==> calls[k] == old(calls[k])
      {
        calls[i] := calls[i + 1];
        i := i + 1;
      }
      calls[FINISHED_LEN - 1] := None;
      len := len - 1;
      assert forall k :: 0 <= k < len ==> Contents()[k] == old(Contents())[k + 1];
    }
  }

  // ---------- what a step's effects do ----------

  /** The bodies that encode, in the order sent. */
  function Bodies(effects: seq<Effect>): seq<Body> {
    if effects == [] then []
    else
      Bodies(effects[..|effects| - 1]) +
      if SendsABody(effects[|effects| - 1]) then [BodyOf(effects[|effects| - 1])] else []
  }

  predicate SendsABody(e: Effect) {
    e.Send? && e.message.encoded.Some?
  }

  function BodyOf(e: Effect): Body
    requires SendsABody(e)
  {
    Body(e.message.kind, e.message.encoded.value)
  }

  /** The positions at `at`, in order, are exactly those where the machine sends a message that
      encodes, and `bodies` are those messages. */
  ghost predicate AreTheSends(effects: seq<Effect>, at: seq<int>, bodies: seq<Body>) {
    && |at| == |bodies|
    && (forall i, j :: 0 <= i < j < |at| ==> at[i] < at[j])
    && (forall j :: 0 <= j < |at| ==> 0 <= at[j] < |effects|)
    && (forall j :: 0 <= j < |at| ==> effects[at[j]] == Send(Message(bodies[j].kind, Some(bodies[j].bytes))))
    && (forall i :: 0 <= i < |effects| && effects[i].Send? && effects[i].message.encoded.Some? ==> i in at)
  }

  ghost predicate SentBy(effects: seq<Effect>, bodies: seq<Body>) {
    exists at: seq<int> :: AreTheSends(effects, at, bodies)
  }

  lemma OneMoreSend(effects: seq<Effect>, e: Effect, at: seq<int>, bodies: seq<Body>)
    requires AreTheSends(effects, at, bodies) && SendsABody(e)
    ensures AreTheSends(effects + [e], at + [|effects|], bodies + [BodyOf(e)])
  {
    var all, at', bodies' := effects + [e], at + [|effects|], bodies + [BodyOf(e)];
    forall j | 0 <= j < |at'|
      ensures 0 <= at'[j] < |all| && all[at'[j]] == Send(Message(bodies'[j].kind, Some(bodies'[j].bytes)))
    {
    }
    forall i | 0 <= i < |all| && SendsABody(all[i])
      ensures i in at'
    {
      if i < |effects| {
        assert all[i] == effects[i];
      } else {
        assert at'[|at|] == i;
      }
    }
  }

  lemma NoMoreSend(effects: seq<Effect>, e: Effect, at: seq<int>, bodies: seq<Body>)
    requires AreTheSends(effects, at, bodies) && !SendsABody(e)
    ensures AreTheSends(effects + [e], at, bodies)
  {
    var all := effects + [e];
    forall i | 0 <= i < |all| && SendsABody(all[i])
      ensures i in at
    {
      assert i < |effects| ==> all[i] == effects[i];
    }
  }

  /** The bodies offered are the messages sent that encode, each once, in order. */
  lemma {:induction false} BodiesAreTheSends(effects: seq<Effect>) returns (at: seq<int>)
    ensures AreTheSends(effects, at, Bodies(effects))
    decreases |effects|
  {
    at := [];
    if effects != [] {
      var before, e := effects[..|effects| - 1], effects[|effects| - 1];
      at := BodiesAreTheSends(before);
      assert effects == before + [e];
      if SendsABody(e) {
        OneMoreSend(before, e, at, Bodies(before));
        at := at + [|before|];
      } else {
        NoMoreSend(before, e, at, Bodies(before));
        assert Bodies(effects) == Bodies(before);
      }
    }
  }

  /** The outbox after each send is offered to it in turn. */
  function Queued(queue: seq<Body>, bodies: seq<Body>): seq<Body>
    decreases |bodies|
  {
    if bodies == [] then queue else Queued(Offer(queue, OUTBOX_LEN, bodies[0]), bodies[1..])
  }

  /** How many of `n` bodies a queue has room for. */
  function Room(queue: seq<Body>, n: nat): nat {
    if |queue| >= OUTBOX_LEN then 0 else if n <= OUTBOX_LEN - |queue| then n else OUTBOX_LEN - |queue|
  }

  /** A full outbox drops the newest: what stays is the queue and as many of the bodies,
      from the first, as there is room for. */
  lemma {:induction false} QueuedKeepsTheOldest(queue: seq<Body>, bodies: seq<Body>)
    ensures Queued(queue, bodies) == queue + bodies[..Room(queue, |bodies|)]
    decreases |bodies|
  {
    if bodies != [] {
      var next := Offer(queue, OUTBOX_LEN, bodies[0]);
      QueuedKeepsTheOldest(next, bodies[1..]);
      var n := Room(queue, |bodies|);
      if |queue| < OUTBOX_LEN {
        assert [bodies[0]] + bodies[1..][..n - 1] == bodies[..n];
        assert next + bodies[1..][..n - 1] == queue + ([bodies[0]] + bodies[1..][..n - 1]);
      }
    }
  }

  /** The reset asked for last, if any was. */
  function Asked(reset: Option<Reset>, effects: seq<Effect>): Option<Reset>
    decreases |effects|
  {
    if effects == [] then reset
    else
      var last := effects[|effects| - 1];
      if last.AskPending? then Some(Pending)
      else if last.AskFail? then Some(Fail)
      else Asked(reset, effects[..|effects| - 1])
  }

  predicate Asks(e: Effect) {
    e.AskPending? || e.AskFail?
  }

  /** `r` is the reset the last request asks for, or `reset` if there is no request. */
  ghost predicate LastAsked(reset: Option<Reset>, effects: seq<Effect>, r: Option<Reset>) {
    || (exists i :: 0 <= i < |effects| && Asks(effects[i]) && (forall j :: i < j < |effects| ==> !Asks(effects[j]))
                    && r == Some(if effects[i] == AskPending then Pending else Fail))
    || ((forall i :: 0 <= i < |effects| ==> !Asks(effects[i])) && r == reset)
  }

  lemma {:induction false} AskedIsTheLast(reset: Option<Reset>, effects: seq<Effect>)
    ensures LastAsked(reset, effects, Asked(reset, effects))
    decreases |effects|
  {
    if effects != [] {
      var n := |effects| - 1;
      if !Asks(effects[n]) {
        AskedIsTheLast(reset, effects[..n]);
        assert forall i :: 0 <= i < n ==> effects[..n][i] == effects[i];
      }
    }
  }

  /** The finish callbacks held after each of the step's is offered in turn. */
  function Calls(queue: seq<Finish>, effects: seq<Effect>): seq<Finish>
    decreases |effects|
  {
    if effects == [] then queue
    else
      var last, before := effects[|effects| - 1], Calls(queue, effects[..|effects| - 1]);
      if last.Finished? then Offer(before, FINISHED_LEN, last.finish) else before
  }

  /** The callbacks of a step, in order. */
  function Finishes(effects: seq<Effect>): seq<Finish> {
    if effects == [] then []
    else
      Finishes(effects[..|effects| - 1]) +
      if effects[|effects| - 1].Finished? then [effects[|effects| - 1].finish] else []
  }

  /** The positions at `at`, in order, are exactly those of the finish callbacks. */
  ghost predicate AreTheFinishes(effects: seq<Effect>, at: seq<int>, finishes: seq<Finish>) {
    && |at| == |finishes|
    && (forall i, j :: 0 <= i < j < |at| ==> at[i] < at[j])
    && (forall j :: 0 <= j < |at| ==> 0 <= at[j] < |effects|)
    && (forall j :: 0 <= j < |at| ==> effects[at[j]] == Finished(finishes[j]))
    && (forall i :: 0 <= i < |effects| && effects[i].Finished? ==> i in at)
  }

  lemma OneMoreFinish(effects: seq<Effect>, e: Effect, at: seq<int>, finishes: seq<Finish>)
    requires AreTheFinishes(effects, at, finishes)
    ensures e.Finished? ==> AreTheFinishes(effects + [e], at + [|effects|], finishes + [e.finish])
    ensures !e.Finished? ==> AreTheFinishes(effects + [e], at, finishes)
  {
    var all, at' := effects + [e], at + [|effects|];
    forall i | 0 <= i < |all| && all[i].Finished?
      ensures i in at' && (!e.Finished? ==> i in at)
    {
      if i < |effects| {
        assert all[i] == effects[i];
      } else {
        assert at'[|at|] == i;
      }
    }
  }

  lemma {:induction false} FinishesAreTheCallbacks(effects: seq<Effect>) returns (at: seq<int>)
    ensures AreTheFinishes(effects, at, Finishes(effects))
    decreases |effects|
  {
    at := [];
    if effects != [] {
      var before, e := effects[..|effects| - 1], effects[|effects| - 1];
      at := FinishesAreTheCallbacks(before);
      assert effects == before + [e];
      OneMoreFinish(before, e, at, Finishes(before));
      if e.Finished? {
        at := at + [|before|];
      } else {
        assert Finishes(effects) == Finishes(before);
      }
    }
  }

  /** A full queue of callbacks drops the newest. */
  lemma {:induction false} CallsKeepTheOldest(queue: seq<Finish>, effects: seq<Effect>)
    requires |queue| <= 4
    ensures var all := Finishes(effects);
      Calls(queue, effects) == queue + all[..if |queue| + |all| <= 4 then |all| else 4 - |queue|]
    decreases |effects|
  {
    if effects == [] {
      assert queue + [] == queue;
    } else {
      var before := effects[..|effects| - 1];
      CallsKeepTheOldest(queue, before);
      var rest, all := Finishes(before), Finishes(effects);
      if |queue| + |rest| <= 4 {
        assert rest[..|rest|] == rest;
      }
      assert all[..|rest|] == rest;
      var n := if |queue| + |all| <= 4 then |all| else 4 - |queue|;
      assert n <= |rest| ==> all[..n] == rest[..n];
      assert n > |rest| ==> all[..n] == all;
    }
  }

  lemma BodiesGrow(effects: seq<Effect>, e: Effect)
    ensures Bodies(effects + [e]) == Bodies(effects) + Bodies([e])
  {
    assert (effects + [e])[..|effects|] == effects;
    assert [e][..0] == [] && Bodies([e]) == [] + if SendsABody(e) then [BodyOf(e)] else [];
  }

  lemma {:induction false} QueuedGrows(queue: seq<Body>, bodies: seq<Body>, more: seq<Body>)
    ensures Queued(queue, bodies + more) == Queued(Queued(queue, bodies), more)
    decreases |bodies|
  {
    if bodies == [] {
      assert bodies + more == more;
    } else {
      assert (bodies + more)[1..] == bodies[1..] + more;
      QueuedGrows(Offer(queue, OUTBOX_LEN, bodies[0]), bodies[1..], more);
    }
  }

  lemma AppliedOne(queue: seq<Body>, effects: seq<Effect>, i: nat)
    requires i < |effects|
    ensures Queued(queue, Bodies(effects[..i + 1])) == Queued(Queued(queue, Bodies(effects[..i])), Bodies([effects[i]]))
  {
    assert effects[..i + 1] == effects[..i] + [effects[i]];
    BodiesGrow(effects[..i], effects[i]);
    QueuedGrows(queue, Bodies(effects[..i]), Bodies([effects[i]]));
  }

  // ---------- what a node does, in order ----------

  /** One step of the DFU machine: whether it ran anything, what it did, and its reboot info
      after it. */
  datatype MachineStep = MachineStep(ran: bool, effects: seq<Effect>, info: RebootInfo)

  /** What happens on a node: the machine steps, the host starts an update, a body or a finish
      callback is handed out, a reset is made with `noinit` in no-init RAM. */
  datatype Act =
    | Stepped(step: MachineStep)
    | Hosted(effects: seq<Effect>, info: RebootInfo)
    | Left(body: Body)
    | Took(finish: Finish)
    | Made(kind: Reset, noinit: RebootInfo)

  /** What the node owes and holds: the bodies waiting, the reset asked for, the callbacks not
      taken, and the machine's reboot info. */
  datatype Held = Held(waiting: seq<Body>, reset: Option<Reset>, calls: seq<Finish>, info: RebootInfo)

  function After(h: Held, a: Act): Held {
    match a
    case Stepped(step) =>
      Held(Queued(h.waiting, Bodies(step.effects)), Asked(h.reset, step.effects), Calls(h.calls, step.effects), step.info)
    case Hosted(effects, info) =>
      Held(Queued(h.waiting, Bodies(effects)), Asked(h.reset, effects), Calls(h.calls, effects), info)
    case Left(_) => if h.waiting == [] then h else h.(waiting := h.waiting[1..])
    case Took(_) => if h.calls == [] then h else h.(calls := h.calls[1..])
    case Made(_, _) => h.(reset := None)
  }

  /** When each act may happen: the oldest body and callback first, a reset only with nothing
      waiting and the machine's reboot info stored, a step only with neither. */
  predicate Allowed(h: Held, a: Act) {
    match a
    case Stepped(_) => h.waiting == [] && h.reset.None?
    case Hosted(_, _) => true
    case Left(body) => h.waiting != [] && body == h.waiting[0]
    case Took(finish) => h.calls != [] && finish == h.calls[0]
    case Made(kind, noinit) => h.waiting == [] && h.reset == Some(kind) && noinit == h.info
  }

  function State(start: RebootInfo, trace: seq<Act>): Held {
    if trace == [] then Held([], None, [], start)
    else After(State(start, trace[..|trace| - 1]), trace[|trace| - 1])
  }

  ghost predicate Lawful(start: RebootInfo, trace: seq<Act>) {
    trace == [] ||
    (Lawful(start, trace[..|trace| - 1]) && Allowed(State(start, trace[..|trace| - 1]), trace[|trace| - 1]))
  }

  lemma LawfulGrows(start: RebootInfo, trace: seq<Act>, a: Act)
    requires Lawful(start, trace) && Allowed(State(start, trace), a)
    ensures Lawful(start, trace + [a]) && State(start, trace + [a]) == After(State(start, trace), a)
  {
    assert (trace + [a])[..|trace|] == trace;
  }

  /** What is seen from outside: frames and resets. */
  datatype Output = Frame(body: Body) | Restart(kind: Reset)

  function Frames(bodies: seq<Body>): (r: seq<Output>)
    ensures |r| == |bodies| && forall i :: 0 <= i < |r| ==> r[i] == Frame(bodies[i])
  {
    seq(|bodies|, i requires 0 <= i < |bodies| => Frame(bodies[i]))
  }

  function Restarts(reset: Option<Reset>): (r: seq<Output>)
    ensures |r| <= 1 && (|r| == 1 <==> reset.Some?) && (|r| == 1 ==> r[0] == Restart(reset.value))
  {
    if reset.Some? then [Restart(reset.value)] else []
  }

  function Outputs(trace: seq<Act>): seq<Output> {
    if trace == [] then []
    else
      Outputs(trace[..|trace| - 1]) +
      match trace[|trace| - 1]
      case Left(body) => [Frame(body)]
      case Made(kind, _) => [Restart(kind)]
      case _ => []
  }

  /** What one step of the machine is to do: its bodies, as many as the empty outbox holds, and
      after them the reset it asked for last. */
  function StepOutputs(step: MachineStep): seq<Output> {
    var bodies := Bodies(step.effects);
    Frames(bodies[..Room([], |bodies|)]) + Restarts(Asked(None, step.effects))
  }

  function ScriptOutputs(steps: seq<MachineStep>): seq<Output> {
    if steps == [] then [] else ScriptOutputs(steps[..|steps| - 1]) + StepOutputs(steps[|steps| - 1])
  }

  /** What still has to come out. */
  function Owing(h: Held): seq<Output> {
    Frames(h.waiting) + Restarts(h.reset)
  }

  /** An update the host starts while `h` is held: its bodies, those there is room for, go in
      front of the reset still asked for, and a reset of its own replaces that. */
  function Interposed(owed: seq<Output>, h: Held, effects: seq<Effect>): seq<Output> {
    var bodies := Bodies(effects);
    owed[..if |owed| < |Restarts(h.reset)| then 0 else |owed| - |Restarts(h.reset)|] +
    Frames(bodies[..Room(h.waiting, |bodies|)]) + Restarts(Asked(h.reset, effects))
  }

  /** Everything the machine's steps and the host's updates asked for, in the order asked. */
  function Owed(start: RebootInfo, trace: seq<Act>): seq<Output> {
    if trace == [] then []
    else
      var before, h := Owed(start, trace[..|trace| - 1]), State(start, trace[..|trace| - 1]);
      match trace[|trace| - 1]
      case Stepped(step) => before + StepOutputs(step)
      case Hosted(effects, _) => Interposed(before, h, effects)
      case _ => before
  }

  /** The steps the machine made, in order, and the updates the host started. */
  function StepsOf(trace: seq<Act>): seq<MachineStep> {
    if trace == [] then []
    else
      StepsOf(trace[..|trace| - 1]) +
      if trace[|trace| - 1].Stepped? then [trace[|trace| - 1].step] else []
  }

  function HostedOf(trace: seq<Act>): seq<seq<Effect>> {
    if trace == [] then []
    else
      HostedOf(trace[..|trace| - 1]) +
      if trace[|trace| - 1].Hosted? then [trace[|trace| - 1].effects] else []
  }

  function LeftOf(trace: seq<Act>): seq<Body> {
    if trace == [] then []
    else LeftOf(trace[..|trace| - 1]) + if trace[|trace| - 1].Left? then [trace[|trace| - 1].body] else []
  }

  function EffectsOf(a: Act): seq<Effect> {
    match a
    case Stepped(step) => step.effects
    case Hosted(effects, _) => effects
    case _ => []
  }

  /** The bodies the outbox took, and those that found it full. */
  function TakenOf(start: RebootInfo, trace: seq<Act>): seq<Body> {
    if trace == [] then []
    else
      var before, bodies := trace[..|trace| - 1], Bodies(EffectsOf(trace[|trace| - 1]));
      TakenOf(start, before) + bodies[..Room(State(start, before).waiting, |bodies|)]
  }

  function LostOf(start: RebootInfo, trace: seq<Act>): seq<Body> {
    if trace == [] then []
    else
      var before, bodies := trace[..|trace| - 1], Bodies(EffectsOf(trace[|trace| - 1]));
      LostOf(start, before) + bodies[Room(State(start, before).waiting, |bodies|)..]
  }

  lemma LostGrows(start: RebootInfo, trace: seq<Act>, a: Act)
    ensures var bodies := Bodies(EffectsOf(a));
      LostOf(start, trace + [a]) == LostOf(start, trace) + bodies[Room(State(start, trace).waiting, |bodies|)..]
  {
    assert (trace + [a])[..|trace|] == trace;
  }

  lemma HostedLoses(start: RebootInfo, trace: seq<Act>, effects: seq<Effect>, info: RebootInfo)
    ensures LostOf(start, trace + [Hosted(effects, info)]) == LostOf(start, trace) <==>
      |State(start, trace).waiting| + |Bodies(effects)| <= OUTBOX_LEN || Bodies(effects) == []
  {
    LostGrows(start, trace, Hosted(effects, info));
    var bodies := Bodies(effects);
    var over := bodies[Room(State(start, trace).waiting, |bodies|)..];
    assert LostOf(start, trace) + over == LostOf(start, trace) <==> |over| == 0;
  }

  lemma FramesAppend(a: seq<Body>, b: seq<Body>)
    ensures Frames(a + b) == Frames(a) + Frames(b)
  {
  }

  lemma FramesFirst(a: seq<Body>)
    requires a != []
    ensures Frames(a) == [Frame(a[0])] + Frames(a[1..])
  {
  }

  lemma OwingLeft(h: Held, a: Act)
    requires Allowed(h, a) && a.Left?
    ensures Owing(h) == [Frame(a.body)] + Owing(After(h, a))
  {
    FramesFirst(h.waiting);
  }

  lemma OwingStepped(h: Held, a: Act)
    requires Allowed(h, a) && a.Stepped?
    ensures Owing(h) == [] && Owing(After(h, a)) == StepOutputs(a.step)
  {
    QueuedKeepsTheOldest(h.waiting, Bodies(a.step.effects));
    var bodies := Bodies(a.step.effects);
    assert h.waiting + bodies[..Room([], |bodies|)] == bodies[..Room([], |bodies|)];
  }

  lemma OwingHosted(done: seq<Output>, h: Held, a: Act)
    requires a.Hosted?
    ensures done + Owing(After(h, a)) == Interposed(done + Owing(h), h, a.effects)
  {
    var bodies := Bodies(a.effects);
    var fit := bodies[..Room(h.waiting, |bodies|)];
    QueuedKeepsTheOldest(h.waiting, bodies);
    FramesAppend(h.waiting, fit);
    WithoutRestarts(done, Frames(h.waiting), Restarts(h.reset));
    Regrouped(done, Frames(h.waiting), Frames(fit), Restarts(After(h, a).reset));
  }

  lemma Regrouped(a: seq<Output>, b: seq<Output>, c: seq<Output>, d: seq<Output>)
    ensures a + (b + c + d) == a + b + c + d
  {
  }

  lemma WithoutRestarts(done: seq<Output>, frames: seq<Output>, restarts: seq<Output>)
    ensures var owed := done + (frames + restarts);
      owed[..|owed| - |restarts|] == done + frames
  {
  }

  /** Over every lawful run: what came out, and then what is still held back, is what the machine
      and the host asked for, in order: every step's bodies and then its reset, before
      anything of the next step. */
  lemma {:induction false} NothingSkipped(start: RebootInfo, trace: seq<Act>)
    requires Lawful(start, trace)
    ensures Outputs(trace) + Owing(State(start, trace)) == Owed(start, trace)
  {
    if trace != [] {
      var before, a := trace[..|trace| - 1], trace[|trace| - 1];
      NothingSkipped(start, before);
      var h := State(start, before);
      match a
      case Stepped(_) => OwingStepped(h, a);
      case Hosted(_, _) => OwingHosted(Outputs(before), h, a);
      case Left(_) =>
        OwingLeft(h, a);
        assert Outputs(before) + [Frame(a.body)] + Owing(After(h, a)) == Outputs(before) + ([Frame(a.body)] + Owing(After(h, a)));
      case Took(_) =>
      case Made(_, _) =>
    }
  }

  /** With no update started by the host, what was asked for is the steps' own outputs. */
  lemma {:induction false} OwedBySteps(start: RebootInfo, trace: seq<Act>)
    requires HostedOf(trace) == []
    ensures Owed(start, trace) == ScriptOutputs(StepsOf(trace))
  {
    if trace != [] {
      var before, a := trace[..|trace| - 1], trace[|trace| - 1];
      OwedBySteps(start, before);
      if a.Stepped? {
        assert StepsOf(trace)[..|StepsOf(before)|] == StepsOf(before);
      } else {
        assert StepsOf(trace) == StepsOf(before);
      }
    }
  }

  /** `out` is what a step is to show: the messages it sends that encode, the first four, and then
      the reset it asks for last. */
  ghost predicate StepShows(step: MachineStep, out: seq<Output>) {
    exists bodies, r :: ShowsWith(step, bodies, r, out)
  }

  ghost predicate ShowsWith(step: MachineStep, bodies: seq<Body>, r: Option<Reset>, out: seq<Output>) {
    && SentBy(step.effects, bodies) && LastAsked(None, step.effects, r)
    && out == Frames(bodies[..if |bodies| <= 4 then |bodies| else 4]) + Restarts(r)
  }

  /** `out` is what the steps show, one after the other. */
  ghost predicate ScriptShows(steps: seq<MachineStep>, out: seq<Output>)
    decreases |steps|
  {
    if steps == [] then out == []
    else exists n :: 0 <= n <= |out| && ShowsFrom(steps, out, n)
  }

  ghost predicate ShowsFrom(steps: seq<MachineStep>, out: seq<Output>, n: nat)
    requires steps != [] && n <= |out|
    decreases |steps|, 0
  {
    ScriptShows(steps[..|steps| - 1], out[..n]) && StepShows(steps[|steps| - 1], out[n..])
  }

  lemma StepOutputsShow(step: MachineStep)
    ensures StepShows(step, StepOutputs(step))
  {
    var at := BodiesAreTheSends(step.effects);
    AskedIsTheLast(None, step.effects);
    Shown(step, Bodies(step.effects), Asked(None, step.effects));
  }

  lemma Shown(step: MachineStep, bodies: seq<Body>, r: Option<Reset>)
    requires SentBy(step.effects, bodies) && LastAsked(None, step.effects, r)
    ensures StepShows(step, Frames(bodies[..Room([], |bodies|)]) + Restarts(r))
  {
    assert ShowsWith(step, bodies, r, Frames(bodies[..Room([], |bodies|)]) + Restarts(r));
  }

  /** What the steps owe is what their own effects say. */
  lemma {:induction false} ScriptOutputsShow(steps: seq<MachineStep>)
    ensures ScriptShows(steps, ScriptOutputs(steps))
    decreases |steps|
  {
    if steps != [] {
      var before, last := steps[..|steps| - 1], steps[|steps| - 1];
      ScriptOutputsShow(before);
      StepOutputsShow(last);
      var out, n := ScriptOutputs(steps), |ScriptOutputs(before)|;
      assert out[..n] == ScriptOutputs(before) && out[n..] == StepOutputs(last);
      assert ShowsFrom(steps, out, n);
    }
  }

  /** So what came out and what is held back is what the steps made show. */
  lemma RunShows(start: RebootInfo, trace: seq<Act>)
    requires Lawful(start, trace) && HostedOf(trace) == []
    ensures ScriptShows(StepsOf(trace), Outputs(trace) + Owing(State(start, trace)))
  {
    NothingSkipped(start, trace);
    OwedBySteps(start, trace);
    ScriptOutputsShow(StepsOf(trace));
  }

  /** No step sends more than the outbox holds. */
  predicate AtMostFour(steps: seq<MachineStep>) {
    forall i :: 0 <= i < |steps| ==> |Bodies(steps[i].effects)| <= OUTBOX_LEN
  }

  /** The steps' bodies, all of them. */
  function AllBodies(steps: seq<MachineStep>): seq<Body> {
    if steps == [] then [] else AllBodies(steps[..|steps| - 1]) + Bodies(steps[|steps| - 1].effects)
  }

  lemma OneMoreStep(steps: seq<MachineStep>, step: MachineStep)
    ensures AtMostFour(steps + [step]) <==> AtMostFour(steps) && |Bodies(step.effects)| <= OUTBOX_LEN
    ensures AllBodies(steps + [step]) == AllBodies(steps) + Bodies(step.effects)
  {
    var all := steps + [step];
    assert all[..|steps|] == steps && all[|steps|] == step;
    if AtMostFour(all) {
      forall i | 0 <= i < |steps| ensures |Bodies(steps[i].effects)| <= OUTBOX_LEN {
        assert steps[i] == all[i];
      }
    }
  }

  /** Every update the host started fits beside what then waits. */
  predicate HostFits(start: RebootInfo, trace: seq<Act>) {
    trace == [] ||
    (var before, a := trace[..|trace| - 1], trace[|trace| - 1];
     && HostFits(start, before)
     && (a.Hosted? ==> Bodies(a.effects) == [] || |State(start, before).waiting| + |Bodies(a.effects)| <= OUTBOX_LEN))
  }

  lemma ActLoses(h: Held, a: Act)
    requires Allowed(h, a)
    ensures var bodies := Bodies(EffectsOf(a));
      |bodies[Room(h.waiting, |bodies|)..]| == 0 <==>
      && (a.Stepped? ==> |bodies| <= OUTBOX_LEN)
      && (a.Hosted? ==> bodies == [] || |h.waiting| + |bodies| <= OUTBOX_LEN)
  {
  }

  /** A body is lost exactly when a step sends more than four or the host's do not fit. */
  lemma {:induction false} LosesOnlyPastFour(start: RebootInfo, trace: seq<Act>)
    requires Lawful(start, trace)
    ensures LostOf(start, trace) == [] <==> AtMostFour(StepsOf(trace)) && HostFits(start, trace)
  {
    if trace != [] {
      var before, a := trace[..|trace| - 1], trace[|trace| - 1];
      LosesOnlyPastFour(start, before);
      ActLoses(State(start, before), a);
      if a.Stepped? {
        OneMoreStep(StepsOf(before), a.step);
      } else {
        assert StepsOf(trace) == StepsOf(before);
      }
    }
  }

  /** What one act adds to the bodies handed out and waiting. */
  lemma OneActMoves(left: seq<Body>, h: Held, a: Act)
    requires Allowed(h, a)
    ensures var bodies := Bodies(EffectsOf(a));
      left + (if a.Left? then [a.body] else []) + After(h, a).waiting ==
      left + h.waiting + bodies[..Room(h.waiting, |bodies|)]
  {
    if a.Stepped? || a.Hosted? {
      QueuedKeepsTheOldest(h.waiting, Bodies(EffectsOf(a)));
    } else if a.Left? {
      assert h.waiting == [a.body] + h.waiting[1..];
    }
  }

  /** The bodies handed out, and then those waiting, are those the outbox took, in order. */
  lemma {:induction false} BodiesLeaveInOrder(start: RebootInfo, trace: seq<Act>)
    requires Lawful(start, trace)
    ensures LeftOf(trace) + State(start, trace).waiting == TakenOf(start, trace)
  {
    if trace != [] {
      var before, a := trace[..|trace| - 1], trace[|trace| - 1];
      BodiesLeaveInOrder(start, before);
      OneActMoves(LeftOf(before), State(start, before), a);
    }
  }

  /** If no step sends over four and the host starts nothing, the outbox took every body. */
  lemma {:induction false} TakesEveryBody(start: RebootInfo, trace: seq<Act>)
    requires Lawful(start, trace) && HostedOf(trace) == [] && AtMostFour(StepsOf(trace))
    ensures TakenOf(start, trace) == AllBodies(StepsOf(trace))
  {
    if trace != [] {
      var before, a := trace[..|trace| - 1], trace[|trace| - 1];
      if a.Stepped? {
        OneMoreStep(StepsOf(before), a.step);
      } else {
        assert StepsOf(trace) == StepsOf(before);
      }
      TakesEveryBody(start, before);
      TakesAll(State(start, before), a);
    }
  }

  /** What the outbox takes of one act. */
  lemma TakesAll(h: Held, a: Act)
    requires Allowed(h, a) && !a.Hosted? && |Bodies(EffectsOf(a))| <= OUTBOX_LEN
    ensures var bodies := Bodies(EffectsOf(a));
      bodies[..Room(h.waiting, |bodies|)] == bodies
    ensures !a.Stepped? ==> Bodies(EffectsOf(a)) == []
  {
  }

  /** Nothing was handed out and the host started nothing between the two. */
  ghost predicate Quiet(before: seq<Act>, now: seq<Act>) {
    LeftOf(now) == LeftOf(before) && HostedOf(now) == HostedOf(before)
  }

  /** If no step to come sends over four bodies, none was lost between the two. */
  ghost predicate Kept(start: RebootInfo, script: seq<MachineStep>, before: seq<Act>, script': seq<MachineStep>, now: seq<Act>) {
    AtMostFour(script) ==> AtMostFour(script') && LostOf(start, now) == LostOf(start, before)
  }

  lemma StepKeeps(start: RebootInfo, script: seq<MachineStep>, trace: seq<Act>)
    requires script != [] && State(start, trace).waiting == []
    ensures Kept(start, script, trace, script[1..], trace + [Stepped(script[0])])
  {
    if AtMostFour(script) {
      LostGrows(start, trace, Stepped(script[0]));
      var bodies := Bodies(script[0].effects);
      assert bodies[|bodies|..] == [];
    }
  }

  /** The steps made meanwhile are those the machine had next. */
  ghost predicate Ran(script: seq<MachineStep>, before: seq<Act>, script': seq<MachineStep>, now: seq<Act>) {
    && |script'| <= |script|
    && script' == script[|script| - |script'|..]
    && StepsOf(now) == StepsOf(before) + script[..|script| - |script'|]
  }

  lemma OneAct(script: seq<MachineStep>, before: seq<Act>, a: Act)
    ensures !a.Stepped? ==> Ran(script, before, script, before + [a])
    ensures a.Stepped? && script != [] && a.step == script[0] ==> Ran(script, before, script[1..], before + [a])
    ensures LeftOf(before + [a]) == LeftOf(before) + if a.Left? then [a.body] else []
    ensures HostedOf(before + [a]) == HostedOf(before) + if a.Hosted? then [a.effects] else []
  {
    assert (before + [a])[..|before|] == before;
    if a.Stepped? && script != [] {
      assert script[..1] == [script[0]];
    }
  }

  lemma NoAct(script: seq<MachineStep>, trace: seq<Act>)
    ensures Ran(script, trace, script, trace)
    ensures LeftOf(trace) == LeftOf(trace) + [] && HostedOf(trace) == HostedOf(trace) + []
  {
  }

  lemma RanOn(s0: seq<MachineStep>, t0: seq<Act>, s1: seq<MachineStep>, t1: seq<Act>, s2: seq<MachineStep>, t2: seq<Act>)
    requires Ran(s0, t0, s1, t1) && Ran(s1, t1, s2, t2)
    ensures Ran(s0, t0, s2, t2)
  {
    var n, m := |s0| - |s1|, |s1| - |s2|;
    Resliced(s0, n, m);
    assert StepsOf(t0) + s0[..n] + s1[..m] == StepsOf(t0) + (s0[..n] + s1[..m]);
  }

  lemma Resliced(s: seq<MachineStep>, n: nat, m: nat)
    requires n + m <= |s|
    ensures s[..n] + s[n..][..m] == s[..n + m] && s[n..][m..] == s[n + m..]
  {
  }

  /** A stretch of the run in which nothing left and only the machine stepped. */
  ghost predicate Moved(start: RebootInfo, script: seq<MachineStep>, before: seq<Act>, script': seq<MachineStep>, now: seq<Act>) {
    Quiet(before, now) && Ran(script, before, script', now) && Kept(start, script, before, script', now)
  }

  lemma MovedByReset(start: RebootInfo, script: seq<MachineStep>, trace: seq<Act>, a: Act)
    requires a.Made?
    ensures Moved(start, script, trace, script, trace + [a])
  {
    OneAct(script, trace, a);
    LostGrows(start, trace, a);
  }

  lemma MovedByStep(start: RebootInfo, script: seq<MachineStep>, trace: seq<Act>)
    requires script != [] && State(start, trace).waiting == []
    ensures Moved(start, script, trace, script[1..], trace + [Stepped(script[0])])
  {
    OneAct(script, trace, Stepped(script[0]));
    StepKeeps(start, script, trace);
  }

  lemma NotMoved(start: RebootInfo, script: seq<MachineStep>, trace: seq<Act>)
    ensures Moved(start, script, trace, script, trace)
  {
    NoAct(script, trace);
  }

  lemma MovedOn(
    start: RebootInfo, s0: seq<MachineStep>, t0: seq<Act>, s1: seq<MachineStep>, t1: seq<Act>, s2: seq<MachineStep>, t2: seq<Act>)
    requires Moved(start, s0, t0, s1, t1) && Moved(start, s1, t1, s2, t2)
    ensures Moved(start, s0, t0, s2, t2)
  {
    RanOn(s0, t0, s1, t1, s2, t2);
  }

  /** And then the oldest body left. */
  lemma MovedAndLeft(start: RebootInfo, s0: seq<MachineStep>, t0: seq<Act>, s1: seq<MachineStep>, t1: seq<Act>, body: Body)
    requires Moved(start, s0, t0, s1, t1)
    ensures Ran(s0, t0, s1, t1 + [Left(body)]) && Kept(start, s0, t0, s1, t1 + [Left(body)])
    ensures LeftOf(t1 + [Left(body)]) == LeftOf(t0) + [body] && HostedOf(t1 + [Left(body)]) == HostedOf(t0)
  {
    OneAct(s1, t1, Left(body));
    LostGrows(start, t1, Left(body));
    RanOn(s0, t0, s1, t1, s1, t1 + [Left(body)]);
  }

  /** What a call of the machine leaves the node holding. */
  lemma AfterCall(h: Held, a: Act, effects: seq<Effect>, info: RebootInfo)
    requires a == Hosted(effects, info) || (a.Stepped? && a.step.effects == effects && a.step.info == info)
    ensures After(h, a) == Held(Queued(h.waiting, Bodies(effects)), Asked(h.reset, effects), Calls(h.calls, effects), info)
  {
  }

  // ---------- the node ----------

  /** The node's DFU state over an arbitrary machine, given as the steps it is going to make
      (after the last it has nothing to run). `trace` is what happened since the start. */
  class Node {
    const start: RebootInfo
    var script: seq<MachineStep>
    var info: RebootInfo
    const outbox: Outbox
    const finished: FinishedCalls
    var reset: Option<Reset>
    var stored: RebootInfo
    var noinit: RebootInfo
    ghost var trace: seq<Act>

    ghost predicate Valid()
      reads this, outbox, outbox.bodies, finished, finished.calls
    {
      && outbox.Valid() && finished.Valid()
      && stored == noinit
      && Lawful(start, trace)
      && State(start, trace) == Held(outbox.Contents(), reset, finished.Contents(), info)
    }

    /** `NodeDfu::new`: the machine starts from what no-init RAM kept. */
    constructor (noinit: RebootInfo, script: seq<MachineStep>)
      ensures Valid() && fresh(outbox) && fresh(outbox.bodies) && fresh(finished) && fresh(finished.calls)
      ensures info == noinit == this.noinit && this.script == script && reset.None? && trace == []
    {
      outbox := new Outbox();
      finished := new FinishedCalls();
      this.script, info, reset, stored, this.noinit := script, noinit, None, noinit, noinit;
      start, trace := noinit, [];
    }

    /** Keeps no-init RAM at the machine's reboot info, written only when it changed. */
    method Persist()
      requires stored == noinit
      modifies this`stored, this`noinit
      ensures stored == noinit == info
    {
      if info != stored {
        noinit := info;
        stored := info;
      }
    }

    /** `Fx`: what the machine's calls do to the node's queues and pending reset. */
    method Apply(effects: seq<Effect>)
      requires outbox.Valid() && finished.Valid()
      modifies this`reset, outbox, outbox.bodies, finished, finished.calls
      ensures outbox.Valid() && finished.Valid()
      ensures outbox.Contents() == Queued(old(outbox.Contents()), Bodies(effects))
      ensures reset == Asked(old(reset), effects)
      ensures finished.Contents() == Calls(old(finished.Contents()), effects)
    {
      ghost var queue := outbox.Contents();
      for i := 0 to |effects|
        invariant outbox.Valid() && finished.Valid()
        invariant outbox.Contents() == Queued(queue, Bodies(effects[..i]))
        invariant reset == Asked(old(reset), effects[..i])
        invariant finished.Contents() == Calls(old(finished.Contents()), effects[..i])
      {
        AppliedOne(queue, effects, i);
        assert effects[..i + 1][..i] == effects[..i];
        match effects[i]
        case Send(message) => outbox.Push(message);
        case Finished(finish) => finished.Push(finish);
        case AskPending => reset := Some(Pending);
        case AskFail => reset := Some(Fail);
      }
      assert effects[..|effects|] == effects;
    }

    /** A call of the machine, as it acts on the node. */
    method Perform(ghost a: Act, effects: seq<Effect>, info': RebootInfo)
      requires Valid() && Allowed(State(start, trace), a)
      requires a == Hosted(effects, info') || (a.Stepped? && a.step.effects == effects && a.step.info == info')
      modifies this`info, this`reset, this`trace, outbox, outbox.bodies, finished, finished.calls
      ensures Valid() && trace == old(trace) + [a]
      ensures outbox.Contents() == Queued(old(outbox.Contents()), Bodies(effects))
    {
      LawfulGrows(start, trace, a);
      AfterCall(State(start, trace), a, effects, info');
      info := info';
      Apply(effects);
      trace := trace + [a];
    }

    /** `machine.step`: the next of its steps, or nothing. */
    method Step() returns (ran: bool)
      requires Valid() && outbox.Contents() == [] && reset.None?
      modifies this`script, this`info, this`reset, this`trace, outbox, outbox.bodies, finished, finished.calls
      ensures Valid()
      ensures old(script) == [] ==> !ran && script == [] && trace == old(trace)
      ensures old(script) != [] ==>
                && ran == old(script)[0].ran && script == old(script)[1..]
                && trace == old(trace) + [Stepped(old(script)[0])]
      ensures Moved(start, old(script), old(trace), script, trace)
    {
      if script == [] {
        NotMoved(start, script, trace);
        return false;
      }
      var step := script[0];
      MovedByStep(start, script, trace);
      script := script[1..];
      Perform(Stepped(step), step.effects, step.info);
      ran := step.ran;
    }

    /** Take the reset asked for, store the reboot info, and make it. */
    method MakeReset()
      requires Valid() && reset.Some? && outbox.Contents() == []
      modifies this`reset, this`stored, this`noinit, this`trace
      ensures Valid() && reset.None? && noinit == info
      ensures trace == old(trace) + [Made(old(reset).value, noinit)] && Moved(start, script, old(trace), script, trace)
    {
      var kind := reset.value;
      reset := None;
      Persist();
      LawfulGrows(start, trace, Made(kind, noinit));
      MovedByReset(start, script, trace, Made(kind, noinit));
      trace := trace + [Made(kind, noinit)];
    }

    /** A turn of `next_body`'s loop that finds no body: a reset, or a step of the machine. */
    method Turn() returns (idle: bool)
      requires Valid() && outbox.Contents() == []
      modifies this`script, this`info, this`reset, this`stored, this`noinit, this`trace
      modifies outbox, outbox.bodies, finished, finished.calls
      ensures Valid() && Moved(start, old(script), old(trace), script, trace)
      ensures noinit == info && (idle ==> outbox.Contents() == [] && reset.None?)
      ensures !idle ==> |script| < |old(script)| || (|script| == |old(script)| && old(reset).Some? && reset.None?)
    {
      if reset.Some? {
        MakeReset();
        return false;
      }
      var ran := Step();
      Persist();
      idle := !ran && outbox.len == 0 && reset.None?;
    }

    /** Takes the oldest body from the outbox. */
    method HandOut() returns (r: Option<Body>)
      requires Valid()
      modifies this`trace, outbox
      ensures Valid() && (r.None? <==> old(outbox.Contents()) == [])
      ensures r.None? ==> trace == old(trace) && outbox.Contents() == []
      ensures r.Some? ==> r.value == old(outbox.Contents())[0] && trace == old(trace) + [Left(r.value)]
    {
      r := outbox.Pop();
      if r.Some? {
        LawfulGrows(start, trace, Left(r.value));
        trace := trace + [Left(r.value)];
      }
    }

    /** `next_body`: hands out the oldest body, stepping the machine until there is one. */
    method NextBody() returns (r: Option<Body>)
      requires Valid()
      modifies this, outbox, outbox.bodies, finished, finished.calls
      ensures Valid() && Ran(old(script), old(trace), script, trace)
      ensures Kept(start, old(script), old(trace), script, trace)
      ensures LeftOf(trace) == LeftOf(old(trace)) + if r.Some? then [r.value] else []
      ensures HostedOf(trace) == HostedOf(old(trace))
      ensures r.None? ==> outbox.Contents() == [] && reset.None? && Outputs(trace) == Owed(start, trace)
      ensures old(outbox.Contents()) == [] ==> noinit == info
      ensures old(outbox.Contents()) != [] ==>
                r.Some? && r.value == old(outbox.Contents())[0] && trace == old(trace) + [Left(r.value)]
    {
      ghost var waiting := outbox.Contents();
      NotMoved(start, script, trace);
      while true
        invariant Valid() && Moved(start, old(script), old(trace), script, trace)
        invariant waiting == [] || (outbox.Contents() == waiting && trace == old(trace))
        invariant waiting == [] ==> outbox.Contents() == [] || noinit == info
        decreases |script|, if reset.Some? then 1 else 0
      {
        ghost var script', trace' := script, trace;
        r := HandOut();
        if r.Some? {
          MovedAndLeft(start, old(script), old(trace), script', trace', r.value);
          return;
        }
        var idle := Turn();
        MovedOn(start, old(script), old(trace), script', trace', script, trace);
        if idle {
          NothingSkipped(start, trace);
          return None;
        }
      }
    }

    /** `initiate_update`: the host's first sends may find bodies still waiting. */
    method InitiateUpdate(effects: seq<Effect>, info': RebootInfo)
      requires Valid()
      modifies this`info, this`reset, this`trace, outbox, outbox.bodies, finished, finished.calls
      ensures Valid() && trace == old(trace) + [Hosted(effects, info')]
      ensures outbox.Contents() == Queued(old(outbox.Contents()), Bodies(effects))
      ensures LostOf(start, trace) == LostOf(start, old(trace)) <==>
                |old(outbox.Contents())| + |Bodies(effects)| <= OUTBOX_LEN || Bodies(effects) == []
    {
      HostedLoses(start, trace, effects, info');
      Perform(Hosted(effects, info'), effects, info');
    }

    /** `take_update_finished`. */
    method TakeFinished() returns (r: Option<Finish>)
      requires Valid()
      modifies this`trace, finished, finished.calls
      ensures Valid()
      ensures r.None? <==> old(finished.Contents()) == []
      ensures r.Some? ==> old(finished.Contents()) == [r.value] + finished.Contents()
      ensures trace == if r.Some? then old(trace) + [Took(r.value)] else old(trace)
    {
      r := finished.Pop();
      if r.Some? {
        LawfulGrows(start, trace, Took(r.value));
        trace := trace + [Took(r.value)];
      }
    }
  }

  /** A call on the node. */
  datatype Call = AskBody | TakeFinish | Initiate(effects: seq<Effect>, info: RebootInfo)

  /** The updates the host starts, in order. */
  function Initiated(calls: seq<Call>): seq<seq<Effect>> {
    if calls == [] then []
    else
      Initiated(calls[..|calls| - 1]) +
      if calls[|calls| - 1].Initiate? then [calls[|calls| - 1].effects] else []
  }

  /** Every run of a fresh node, over every machine: it stays lawful, so each reset is made with
      nothing waiting and the machine's reboot info stored; what came out, and then what is held
      back, is what the steps made and the updates started asked for, in order. */
  method Drive(node: Node, calls: seq<Call>) returns (frames: seq<Body>)
    requires node.Valid() && node.trace == []
    modifies node, node.outbox, node.outbox.bodies, node.finished, node.finished.calls
    ensures node.Valid() && frames == LeftOf(node.trace)
    ensures |node.script| <= |old(node.script)| && HostedOf(node.trace) == Initiated(calls)
    ensures StepsOf(node.trace) == old(node.script)[..|old(node.script)| - |node.script|]
    ensures Outputs(node.trace) + (Frames(node.outbox.Contents()) + Restarts(node.reset)) == Owed(node.start, node.trace)
    ensures Initiated(calls) == [] ==> Owed(node.start, node.trace) == ScriptOutputs(StepsOf(node.trace))
    ensures Initiated(calls) == [] ==>
              ScriptShows(StepsOf(node.trace), Outputs(node.trace) + Owing(State(node.start, node.trace)))
    ensures frames + node.outbox.Contents() == TakenOf(node.start, node.trace)
    ensures LostOf(node.start, node.trace) == [] <==> AtMostFour(StepsOf(node.trace)) && HostFits(node.start, node.trace)
    ensures Initiated(calls) == [] && AtMostFour(StepsOf(node.trace)) ==>
              TakenOf(node.start, node.trace) == AllBodies(StepsOf(node.trace))
  {
    frames := MakeCalls(node, calls);
    NothingSkipped(node.start, node.trace);
    BodiesLeaveInOrder(node.start, node.trace);
    LosesOnlyPastFour(node.start, node.trace);
    if Initiated(calls) == [] {
      OwedBySteps(node.start, node.trace);
      RunShows(node.start, node.trace);
      if AtMostFour(StepsOf(node.trace)) {
        TakesEveryBody(node.start, node.trace);
      }
    }
  }

  method MakeCalls(node: Node, calls: seq<Call>) returns (frames: seq<Body>)
    requires node.Valid() && node.trace == []
    modifies node, node.outbox, node.outbox.bodies, node.finished, node.finished.calls
    ensures node.Valid() && frames == LeftOf(node.trace) && HostedOf(node.trace) == Initiated(calls)
    ensures |node.script| <= |old(node.script)|
    ensures StepsOf(node.trace) == old(node.script)[..|old(node.script)| - |node.script|]
  {
    frames := [];
    for i := 0 to |calls|
      invariant node.Valid() && frames == LeftOf(node.trace) && HostedOf(node.trace) == Initiated(calls[..i])
      invariant Ran(old(node.script), [], node.script, node.trace)
    {
      assert calls[..i + 1][..i] == calls[..i];
      ghost var script, trace := node.script, node.trace;
      var frame := OneCall(node, calls[i]);
      RanOn(old(node.script), [], script, trace, node.script, node.trace);
      frames := frames + frame;
    }
    assert calls[..|calls|] == calls;
  }

  method OneCall(node: Node, call: Call) returns (frame: seq<Body>)
    requires node.Valid()
    modifies node, node.outbox, node.outbox.bodies, node.finished, node.finished.calls
    ensures node.Valid() && LeftOf(node.trace) == LeftOf(old(node.trace)) + frame
    ensures HostedOf(node.trace) == HostedOf(old(node.trace)) + if call.Initiate? then [call.effects] else []
    ensures Ran(old(node.script), old(node.trace), node.script, node.trace)
  {
    frame := [];
    match call
    case AskBody =>
      var body := node.NextBody();
      NoAct(node.script, node.trace);
      if body.Some? {
        frame := [body.value];
      }
    case TakeFinish =>
      var finish := node.TakeFinished();
      if finish.Some? {
        OneAct(node.script, old(node.trace), Took(finish.value));
      } else {
        NoAct(node.script, node.trace);
      }
    case Initiate(effects, info) =>
      node.InitiateUpdate(effects, info);
      OneAct(node.script, old(node.trace), Hosted(effects, info));
  }
}
