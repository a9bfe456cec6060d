/** An application's command and notification queues and the node's end of them. */
module ChannelApp {
  import opened Bytes
  import opened Outcomes

  const PING_PAYLOAD_BYTES := 64
  const TOPIC_BYTES := 64
  const TOPIC_MAX_LEN := 255
  const DATA_BYTES := 256
  const SERVICE_NAME_BYTES := 48
  const REPLY_BYTES := 1008

  type Name = s: seq<byte> | |s| <= SERVICE_NAME_BYTES witness []

  /** `power_info::SERVICE`, "bus_power_controller/timing". */
  const POWER_INFO: Name := [
    0x62, 0x75, 0x73, 0x5F, 0x70, 0x6F, 0x77, 0x65, 0x72, 0x5F, 0x63, 0x6F, 0x6E, 0x74, 0x72, 0x6F, 0x6C, 0x6C, 0x65,
    0x72, 0x2F, 0x74, 0x69, 0x6D, 0x69, 0x6E, 0x67]

  datatype Suffix = SysInfo | ConfigMap | Metrics

  datatype Command =
    | Ping(target: nat, payload: seq<byte>)
    | Publish(topic: seq<byte>, kind: byte, version: byte, data: seq<byte>)
    | Subscribe(topic: seq<byte>)
    | Unsubscribe(topic: seq<byte>)
    | SpotterLog(target: nat, text: seq<byte>)
    | SpotterTxData(data: seq<byte>)
    | ServiceRequest(service: Name, data: seq<byte>, timeout: u32)
    | SysInfoRequest(target: nat, timeout: u32)
    | ConfigMapRequest(target: nat, partition: u32, timeout: u32)
    | MetricsRequest(target: nat, timeout: u32)
    | PowerInfoRequest(timeout: u32)

  /** The node's events, of which the last constructor is every kind with no notification. */
  datatype Event =
    | EchoReply(source: nat, seqNum: u16, payload: seq<byte>, roundTripMs: u32)
    | Publication(source: nat, subscription: seq<byte>, topic: seq<byte>, kind: byte, version: byte, data: seq<byte>)
    | ServiceReply(id: u32, service: seq<byte>, data: seq<byte>)
    | ServiceTimeout(id: u32, service: seq<byte>)
    | PowerInfoReply(id: u32, reply: seq<byte>)
    | Other

  datatype Notification =
    | Owned(event: Event)
    | ServiceRequested(service: Name, result: Result<u32, byte>)

  /** What the node did with a command: the events it reported meanwhile, the frame to send,
      and for a service request its id or the error. */
  datatype NodeReply = NodeReply(events: seq<Event>, frame: Option<seq<byte>>, result: Result<u32, byte>)

  /** `Notification::from_event`: the owned form, if there is one and everything fits. */
  function FromEvent(e: Event): Option<Notification> {
    var fits := match e
      case EchoReply(_, _, payload, _) => |payload| <= PING_PAYLOAD_BYTES
      case Publication(_, subscription, topic, _, _, data) =>
        |subscription| <= TOPIC_BYTES && |topic| <= TOPIC_MAX_LEN && |data| <= DATA_BYTES
      case ServiceReply(_, service, data) => |service| <= SERVICE_NAME_BYTES && |data| <= REPLY_BYTES
      case ServiceTimeout(_, service) => |service| <= SERVICE_NAME_BYTES
      case PowerInfoReply(_, _) => true
      case Other => false;
    if fits then Some(Owned(e)) else None
  }

  /** An event the application is to hear of. */
  predicate Notifiable(e: Event) {
    !e.Other?
  }

  /** The one kind whose oversized form is neither queued nor counted. */
  predicate Unheard(e: Event) {
    e.EchoReply? && |e.payload| > PING_PAYLOAD_BYTES
  }

  /** Whether the node may report events while carrying the command out. */
  predicate Reports(c: Command) {
    !(c.Ping? || c.Subscribe? || c.Unsubscribe?)
  }

  predicate IsRequest(c: Command) {
    c.ServiceRequest? || c.SysInfoRequest? || c.ConfigMapRequest? || c.MetricsRequest? || c.PowerInfoRequest?
  }

  function Held(c: Option<Command>): seq<Command> {
    if c.Some? then [c.value] else []
  }

  /** What the application is to hear of: an event of the node, or the answer to a request. */
  datatype Due = Reported(event: Event) | Answered(service: seq<byte>, result: Result<u32, byte>)

  /** The notification it becomes, if there is one and it fits. */
  function NotificationOf(d: Due): Option<Notification> {
    match d
    case Reported(e) => FromEvent(e)
    case Answered(service, result) =>
      if |service| <= SERVICE_NAME_BYTES then Some(ServiceRequested(service, result)) else None
  }

  /** How many of them the application should hear of, and how many are neither queued nor
      counted. */
  function Notifiables(due: seq<Due>): nat {
    if due == [] then 0
    else
      var last := due[|due| - 1];
      Notifiables(due[..|due| - 1]) + if last.Answered? || Notifiable(last.event) then 1 else 0
  }

  function UnheardIn(due: seq<Due>): nat {
    if due == [] then 0
    else
      var last := due[|due| - 1];
      UnheardIn(due[..|due| - 1]) + if last.Reported? && Unheard(last.event) then 1 else 0
  }

  /** Those that have a notification, in order. */
  function OwnedOf(due: seq<Due>): seq<Notification> {
    if due == [] then []
    else
      var rest, last := OwnedOf(due[..|due| - 1]), NotificationOf(due[|due| - 1]);
      if last.Some? then rest + [last.value] else rest
  }

  /** The services answered, in order. */
  function AnswersIn(due: seq<Due>): seq<seq<byte>> {
    if due == [] then []
    else AnswersIn(due[..|due| - 1]) + if due[|due| - 1].Answered? then [due[|due| - 1].service] else []
  }

  /** `try_send`: a full queue, or nothing to send, leaves it as it is. */
  function TrySend(queue: seq<Notification>, depth: nat, n: Option<Notification>): seq<Notification> {
    if n.Some? then Offer(queue, depth, n.value) else queue
  }

  /** The queue after each is offered to it in turn. */
  function AfterAll(queue: seq<Notification>, depth: nat, due: seq<Due>): seq<Notification>
    decreases |due|
  {
    if due == [] then queue
    else TrySend(AfterAll(queue, depth, due[..|due| - 1]), depth, NotificationOf(due[|due| - 1]))
  }

  /** The queue keeps what it held and then the notifications, in order, from the first until
      it is full: the newest are lost. */
  lemma {:induction false} QueueKeepsTheOldest(queue: seq<Notification>, depth: nat, due: seq<Due>)
    requires |queue| <= depth
    ensures var owned := OwnedOf(due);
      AfterAll(queue, depth, due) == queue + owned[..if |queue| + |owned| <= depth then |owned| else depth - |queue|]
    decreases |due|
  {
    if due == [] {
      assert queue + [] == queue;
    } else {
      QueueKeepsTheOldest(queue, depth, due[..|due| - 1]);
      var rest, owned := OwnedOf(due[..|due| - 1]), OwnedOf(due);
      if |queue| + |rest| < depth && |owned| > |rest| {
        assert rest[..|rest|] == rest && owned[..|owned|] == owned;
      } else if |queue| + |rest| <= depth {
        var n := if |queue| + |owned| <= depth then |owned| else depth - |queue|;
        assert rest[..|rest|] == rest == owned[..n];
      } else {
        assert rest[..depth - |queue|] == owned[..depth - |queue|];
      }
    }
  }

  // ---------- runs ----------

  /** Both queues, the command held, and the history: the commands accepted and carried out,
      the notifications taken, everything due, how many notifications each of those found queued,
      and how many were counted as dropped. */
  datatype Queues = Queues(
    commands: seq<Command>, next: Option<Command>, notifications: seq<Notification>, accepted: seq<Command>,
    done: seq<Command>, taken: seq<Notification>, due: seq<Due>, met: seq<nat>, lost: nat)

  /** The built-in services' names are a parameter; so is the depth of both queues. */
  datatype Settings = Settings(depth: nat, names: (nat, Suffix) -> Name)

  /** What may happen to the queues, in any order; a `ready` future dropped while pending is a
      poll and nothing more. */
  datatype Op =
    | AppSends(command: Command)
    | AppTakes
    | ReadyPolled
    | NodeActs(reply: NodeReply)
    | NodeReports(event: Event)

  /** The service a request asks. */
  function ServiceOf(k: Settings, c: Command): Name
    requires IsRequest(c)
  {
    match c
    case ServiceRequest(service, _, _) => service
    case SysInfoRequest(target, _) => k.names(target, SysInfo)
    case ConfigMapRequest(target, _, _) => k.names(target, ConfigMap)
    case MetricsRequest(target, _) => k.names(target, Metrics)
    case PowerInfoRequest(_) => POWER_INFO
  }

  function ReportedAll(events: seq<Event>): (r: seq<Due>)
    ensures |r| == |events| && forall i :: 0 <= i < |r| ==> r[i] == Reported(events[i])
  {
    seq(|events|, i requires 0 <= i < |events| => Reported(events[i]))
  }

  /** The events reported while a command is carried out. */
  function Told(c: Command, reply: NodeReply): seq<Event> {
    if Reports(c) then reply.events else []
  }

  /** What a command carried out with `reply` makes due: the events reported meanwhile, then
      the answer if it is a request. */
  function Produced(k: Settings, c: Command, reply: NodeReply): seq<Due> {
    ReportedAll(Told(c, reply)) + (if IsRequest(c) then [Answered(ServiceOf(k, c), reply.result)] else [])
  }

  /** The frame to send for it. */
  function FrameFor(c: Command, reply: NodeReply): Option<seq<byte>> {
    if c.Subscribe? || c.Unsubscribe? || (IsRequest(c) && reply.result.Failure?) then None else reply.frame
  }

  function Requests(k: Settings, done: seq<Command>): seq<seq<byte>> {
    if done == [] then []
    else
      Requests(k, done[..|done| - 1]) +
      if IsRequest(done[|done| - 1]) then [ServiceOf(k, done[|done| - 1])] else []
  }

  /** One thing due: queued, or counted, or neither. */
  function Hear(k: Settings, q: Queues, d: Due): Queues {
    var heard := q.(due := q.due + [d], met := q.met + [|q.notifications|]);
    if NotificationOf(d).Some? && |q.notifications| < k.depth then
      heard.(notifications := q.notifications + [NotificationOf(d).value])
    else if d.Reported? && (d.event.Other? || Unheard(d.event)) then heard
    else heard.(lost := q.lost + 1)
  }

  function HearAll(k: Settings, q: Queues, due: seq<Due>): Queues
    decreases |due|
  {
    if due == [] then q else Hear(k, HearAll(k, q, due[..|due| - 1]), due[|due| - 1])
  }

  function Next(k: Settings, q: Queues, op: Op): Queues {
    match op
    case AppSends(c) =>
      if |q.commands| < k.depth then q.(commands := q.commands + [c], accepted := q.accepted + [c]) else q
    case AppTakes =>
      if q.notifications == [] then q
      else q.(notifications := q.notifications[1..], taken := q.taken + [q.notifications[0]])
    case ReadyPolled =>
      if q.next.Some? || q.commands == [] then q
      else q.(next := Some(q.commands[0]), commands := q.commands[1..])
    case NodeActs(reply) =>
      if q.next.None? then q
      else HearAll(k, Acting(q), Produced(k, q.next.value, reply))
    case NodeReports(e) => Hear(k, q, Reported(e))
  }

  function Run(k: Settings, q: Queues, ops: seq<Op>): Queues
    decreases |ops|
  {
    if ops == [] then q else Next(k, Run(k, q, ops[..|ops| - 1]), ops[|ops| - 1])
  }

  const EMPTY := Queues([], None, [], [], [], [], [], [], 0)

  /** `a` is what is left of `b` when some of it is struck out. */
  ghost predicate InOrder(a: seq<Notification>, b: seq<Notification>)
    decreases |b|
  {
    a == [] ||
    (b != [] &&
     (|| (a[|a| - 1] == b[|b| - 1] && InOrder(a[..|a| - 1], b[..|b| - 1]))
      || InOrder(a, b[..|b| - 1])))
  }

  lemma InOrderGrows(a: seq<Notification>, b: seq<Notification>, x: Notification)
    requires InOrder(a, b)
    ensures InOrder(a, b + [x]) && InOrder(a + [x], b + [x])
  {
    assert (b + [x])[..|b|] == b && (a + [x])[..|a|] == a;
  }

  /** The commands carried out, then the one held, then those queued, are those accepted. */
  ghost predicate InTurn(q: Queues) {
    q.accepted == q.done + Held(q.next) + q.commands
  }

  /** The notifications taken and queued are owned things due, in order, none twice; with those
      dropped and the oversized echo replies they are all there was to hear. */
  ghost predicate Accounted(q: Queues) {
    && InOrder(q.taken + q.notifications, OwnedOf(q.due))
    && |q.taken| + |q.notifications| + q.lost + UnheardIn(q.due) == Notifiables(q.due)
  }

  lemma DueGrows(due: seq<Due>, d: Due)
    ensures OwnedOf(due + [d]) == OwnedOf(due) + (if NotificationOf(d).Some? then [NotificationOf(d).value] else [])
    ensures Notifiables(due + [d]) == Notifiables(due) + (if d.Answered? || Notifiable(d.event) then 1 else 0)
    ensures UnheardIn(due + [d]) == UnheardIn(due) + (if d.Reported? && Unheard(d.event) then 1 else 0)
    ensures AnswersIn(due + [d]) == AnswersIn(due) + (if d.Answered? then [d.service] else [])
  {
    assert (due + [d])[..|due|] == due;
    assert OwnedOf(due) + [] == OwnedOf(due);
  }

  lemma HearKeepsOrder(k: Settings, q: Queues, d: Due)
    requires InOrder(q.taken + q.notifications, OwnedOf(q.due))
    ensures var r := Hear(k, q, d);
      InOrder(r.taken + r.notifications, OwnedOf(r.due))
  {
    DueGrows(q.due, d);
    var n := NotificationOf(d);
    if n.Some? {
      InOrderGrows(q.taken + q.notifications, OwnedOf(q.due), n.value);
      assert q.taken + (q.notifications + [n.value]) == (q.taken + q.notifications) + [n.value];
    } else {
      assert OwnedOf(q.due) + [] == OwnedOf(q.due);
    }
  }

  lemma HearKeeps(k: Settings, q: Queues, d: Due)
    requires Accounted(q)
    ensures Accounted(Hear(k, q, d))
  {
    DueGrows(q.due, d);
    HearCounts(k, q, d);
    HearKeepsOrder(k, q, d);
  }

  lemma HearCounts(k: Settings, q: Queues, d: Due)
    ensures var r := Hear(k, q, d);
      && r.taken == q.taken && r.due == q.due + [d]
      && |r.notifications| + r.lost + (if d.Reported? && Unheard(d.event) then 1 else 0)
         == |q.notifications| + q.lost + (if d.Answered? || Notifiable(d.event) then 1 else 0)
  {
  }

  /** What hearing does to the rest of the state. */
  lemma {:induction false} HearingOnly(k: Settings, q: Queues, due: seq<Due>)
    ensures var r := HearAll(k, q, due);
      r == q.(due := q.due + due, met := r.met, lost := r.lost, notifications := AfterAll(q.notifications, k.depth, due))
    decreases |due|
  {
    if due == [] {
      assert q.due + [] == q.due;
    } else {
      HearingOnly(k, q, due[..|due| - 1]);
      assert q.due + due[..|due| - 1] + [due[|due| - 1]] == q.due + due;
    }
  }

  lemma {:induction false} HearingKeeps(k: Settings, q: Queues, due: seq<Due>)
    requires Accounted(q)
    ensures Accounted(HearAll(k, q, due))
    decreases |due|
  {
    if due != [] {
      HearingKeeps(k, q, due[..|due| - 1]);
      HearKeeps(k, HearAll(k, q, due[..|due| - 1]), due[|due| - 1]);
    }
  }

  lemma {:induction false} AnswersAppend(due: seq<Due>, events: seq<Event>)
    ensures AnswersIn(due + ReportedAll(events)) == AnswersIn(due)
    decreases |events|
  {
    if events == [] {
      assert due + ReportedAll(events) == due;
    } else {
      var before, e := events[..|events| - 1], events[|events| - 1];
      AnswersAppend(due, before);
      assert due + ReportedAll(events) == (due + ReportedAll(before)) + [Reported(e)];
      DueGrows(due + ReportedAll(before), Reported(e));
    }
  }

  /** A command carried out is answered exactly if it is a request. */
  lemma AnswersProduced(k: Settings, due: seq<Due>, c: Command, reply: NodeReply)
    ensures AnswersIn(due + Produced(k, c, reply)) == AnswersIn(due) + if IsRequest(c) then [ServiceOf(k, c)] else []
  {
    var told := ReportedAll(Told(c, reply));
    AnswersAppend(due, Told(c, reply));
    if IsRequest(c) {
      AnswersTo(due, told, Answered(ServiceOf(k, c), reply.result));
    } else {
      assert told + [] == told;
      assert AnswersIn(due) + [] == AnswersIn(due);
    }
  }

  lemma AnswersTo(due: seq<Due>, told: seq<Due>, answer: Due)
    requires answer.Answered?
    ensures AnswersIn(due + (told + [answer])) == AnswersIn(due + told) + [answer.service]
  {
    assert due + (told + [answer]) == (due + told) + [answer];
    DueGrows(due + told, answer);
  }

  /** The events first, then the answer. */
  lemma ProducedHeard(k: Settings, q: Queues, c: Command, reply: NodeReply)
    ensures var told := HearAll(k, q, ReportedAll(Told(c, reply)));
      HearAll(k, q, Produced(k, c, reply)) ==
      if IsRequest(c) then Hear(k, told, Answered(ServiceOf(k, c), reply.result)) else told
    ensures !Reports(c) ==> HearAll(k, q, ReportedAll(Told(c, reply))) == q
  {
    var all, told := Produced(k, c, reply), ReportedAll(Told(c, reply));
    if IsRequest(c) {
      assert all[..|told|] == told && all[|told|] == Answered(ServiceOf(k, c), reply.result);
    } else {
      assert all == told;
    }
  }

  /** Every request carried out was answered, in order, queued or counted. */
  ghost predicate AllAnswered(k: Settings, q: Queues) {
    AnswersIn(q.due) == Requests(k, q.done)
  }

  /** The state in which the command held is being carried out. */
  function Acting(q: Queues): Queues
    requires q.next.Some?
  {
    q.(next := None, done := q.done + [q.next.value])
  }

  lemma ActInTurn(q: Queues)
    requires InTurn(q) && q.next.Some?
    ensures InTurn(Acting(q))
  {
    assert q.done + [q.next.value] + [] + q.commands == q.done + [q.next.value] + q.commands;
  }

  lemma ActKeeps(k: Settings, q: Queues, reply: NodeReply)
    requires InTurn(q) && Accounted(q) && AllAnswered(k, q) && q.next.Some?
    ensures var r := HearAll(k, Acting(q), Produced(k, q.next.value, reply));
      InTurn(r) && Accounted(r) && AllAnswered(k, r)
  {
    var due := Produced(k, q.next.value, reply);
    ActInTurn(q);
    HearingOnly(k, Acting(q), due);
    HearingKeeps(k, Acting(q), due);
    ActAnswers(k, q, reply);
  }

  lemma ActAnswers(k: Settings, q: Queues, reply: NodeReply)
    requires AllAnswered(k, q) && q.next.Some?
    ensures AnswersIn(q.due + Produced(k, q.next.value, reply)) == Requests(k, q.done + [q.next.value])
  {
    AnswersProduced(k, q.due, q.next.value, reply);
    assert (q.done + [q.next.value])[..|q.done|] == q.done;
  }

  lemma ReportKeeps(k: Settings, q: Queues, e: Event)
    requires InTurn(q) && Accounted(q) && AllAnswered(k, q)
    ensures var r := Next(k, q, NodeReports(e));
      InTurn(r) && Accounted(r) && AllAnswered(k, r)
  {
    HearKeeps(k, q, Reported(e));
    DueGrows(q.due, Reported(e));
    assert AnswersIn(q.due) + [] == AnswersIn(q.due);
  }

  /** What may happen keeps the three. */
  lemma NextKeeps(k: Settings, q: Queues, op: Op)
    requires InTurn(q) && Accounted(q) && AllAnswered(k, q)
    ensures var r := Next(k, q, op);
      InTurn(r) && Accounted(r) && AllAnswered(k, r)
  {
    match op
    case AppSends(c) => assert q.done + Held(q.next) + (q.commands + [c]) == q.done + Held(q.next) + q.commands + [c];
    case AppTakes =>
      if q.notifications != [] {
        assert q.taken + [q.notifications[0]] + q.notifications[1..] == q.taken + q.notifications;
      }
    case ReadyPolled =>
      if q.next.None? && q.commands != [] {
        assert q.done + [q.commands[0]] + q.commands[1..] == q.done + [] + q.commands;
      }
    case NodeActs(reply) =>
      if q.next.Some? {
        ActKeeps(k, q, reply);
      }
    case NodeReports(e) => ReportKeeps(k, q, e);
  }

  /** Every interleaving. Of the commands the queue accepted, those carried out come first and in
      order, then the one held, then those queued; every request among them is answered once,
      in order; what was taken and is queued is what was due, in order, and with what was
      dropped accounts for all of it exactly when no echo reply was oversized. */
  lemma {:induction false} NothingLostUnaccounted(k: Settings, ops: seq<Op>)
    ensures var q := Run(k, EMPTY, ops);
      && q.accepted == q.done + Held(q.next) + q.commands
      && AnswersIn(q.due) == Requests(k, q.done)
      && InOrder(q.taken + q.notifications, OwnedOf(q.due))
      && |q.taken| + |q.notifications| + q.lost + UnheardIn(q.due) == Notifiables(q.due)
      && (q.lost == Notifiables(q.due) - |q.taken| - |q.notifications| <==> UnheardIn(q.due) == 0)
  {
    if ops != [] {
      NothingLostUnaccounted(k, ops[..|ops| - 1]);
      NextKeeps(k, Run(k, EMPTY, ops[..|ops| - 1]), ops[|ops| - 1]);
    }
  }

  // ---------- what is kept and what is dropped ----------

  /** It has a notification and every part of it fits. */
  predicate WithinLimits(d: Due) {
    match d
    case Answered(service, _) => |service| <= 48
    case Reported(e) =>
      match e
      case EchoReply(_, _, payload, _) => |payload| <= 64
      case Publication(_, subscription, topic, _, _, data) => |subscription| <= 64 && |topic| <= 255 && |data| <= 256
      case ServiceReply(_, service, data) => |service| <= 48 && |data| <= 1008
      case ServiceTimeout(_, service) => |service| <= 48
      case PowerInfoReply(_, _) => true
      case Other => false
  }

  /** It is of a kind that is counted when some part of it does not fit. */
  predicate TooBig(d: Due) {
    !WithinLimits(d) && (d.Answered? || d.event.Publication? || d.event.ServiceReply? || d.event.ServiceTimeout?)
  }

  function FormOf(d: Due): Notification
    requires WithinLimits(d)
  {
    match d
    case Reported(e) => Owned(e)
    case Answered(service, result) => ServiceRequested(service, result)
  }

  /** Of the things due, each of which found `met` notifications queued, those that fit and found
      room, in order. */
  function KeptOf(depth: nat, due: seq<Due>, met: seq<nat>): seq<Notification>
    requires |met| == |due|
  {
    if due == [] then []
    else
      var n := |due| - 1;
      KeptOf(depth, due[..n], met[..n]) + if WithinLimits(due[n]) && met[n] < depth then [FormOf(due[n])] else []
  }

  /** How many fit and found none, or were too big. */
  function DroppedOf(depth: nat, due: seq<Due>, met: seq<nat>): nat
    requires |met| == |due|
  {
    if due == [] then 0
    else
      var n := |due| - 1;
      DroppedOf(depth, due[..n], met[..n]) + if TooBig(due[n]) || (WithinLimits(due[n]) && met[n] >= depth) then 1 else 0
  }

  /** No more were queued than had been kept. */
  ghost predicate MetNoMore(depth: nat, due: seq<Due>, met: seq<nat>)
    requires |met| == |due|
  {
    due == [] ||
    (var n := |due| - 1;
     MetNoMore(depth, due[..n], met[..n]) && met[n] <= |KeptOf(depth, due[..n], met[..n])|)
  }

  /** The notifications taken and queued are exactly those kept, and the count exactly those
      dropped. */
  ghost predicate Fair(k: Settings, q: Queues) {
    && |q.met| == |q.due| && MetNoMore(k.depth, q.due, q.met)
    && q.taken + q.notifications == KeptOf(k.depth, q.due, q.met)
    && q.lost == DroppedOf(k.depth, q.due, q.met)
  }

  lemma OneMoreDue(depth: nat, due: seq<Due>, met: seq<nat>, d: Due, m: nat)
    requires |met| == |due|
    ensures KeptOf(depth, due + [d], met + [m]) ==
            KeptOf(depth, due, met) + if WithinLimits(d) && m < depth then [FormOf(d)] else []
    ensures DroppedOf(depth, due + [d], met + [m]) ==
            DroppedOf(depth, due, met) + if TooBig(d) || (WithinLimits(d) && m >= depth) then 1 else 0
    ensures MetNoMore(depth, due + [d], met + [m]) <==> MetNoMore(depth, due, met) && m <= |KeptOf(depth, due, met)|
  {
    assert (due + [d])[..|due|] == due && (met + [m])[..|due|] == met;
  }

  /** What is owned is what is within its limits. */
  lemma OwnedIffWithin(d: Due)
    ensures NotificationOf(d) == if WithinLimits(d) then Some(FormOf(d)) else None
    ensures TooBig(d) <==> !WithinLimits(d) && !(d.Reported? && (d.event.Other? || Unheard(d.event)))
  {
  }

  /** One thing due: kept if it fits and there is room, counted if it is too big or there is none,
      and otherwise passed over. */
  lemma HearExactly(k: Settings, q: Queues, d: Due)
    ensures var r := Hear(k, q, d);
      && r.due == q.due + [d] && r.met == q.met + [|q.notifications|] && r.taken == q.taken
      && r.notifications == q.notifications + (if WithinLimits(d) && |q.notifications| < k.depth then [FormOf(d)] else [])
      && r.lost == q.lost + if TooBig(d) || (WithinLimits(d) && |q.notifications| >= k.depth) then 1 else 0
  {
    OwnedIffWithin(d);
    assert q.notifications + [] == q.notifications;
  }

  /** The queue and the count of drops after one thing due. */
  ghost predicate Heard(
    depth: nat, d: Due, queue: seq<Notification>, lost: nat, queue': seq<Notification>, lost': nat)
  {
    if WithinLimits(d) && |queue| < depth then queue' == queue + [FormOf(d)] && lost' == lost
    else queue' == queue && lost' == if WithinLimits(d) || TooBig(d) then lost + 1 else lost
  }

  lemma HearFairly(k: Settings, q: Queues, d: Due)
    requires Fair(k, q)
    ensures Fair(k, Hear(k, q, d))
  {
    HearExactly(k, q, d);
    OneMoreDue(k.depth, q.due, q.met, d, |q.notifications|);
    var more := if WithinLimits(d) && |q.notifications| < k.depth then [FormOf(d)] else [];
    assert q.taken + (q.notifications + more) == q.taken + q.notifications + more;
  }

  lemma {:induction false} HearAllFairly(k: Settings, q: Queues, due: seq<Due>)
    requires Fair(k, q)
    ensures Fair(k, HearAll(k, q, due))
    decreases |due|
  {
    if due != [] {
      HearAllFairly(k, q, due[..|due| - 1]);
      HearFairly(k, HearAll(k, q, due[..|due| - 1]), due[|due| - 1]);
    }
  }

  lemma NextFairly(k: Settings, q: Queues, op: Op)
    requires Fair(k, q)
    ensures Fair(k, Next(k, q, op))
  {
    match op
    case AppSends(_) =>
    case AppTakes =>
      if q.notifications != [] {
        assert q.taken + [q.notifications[0]] + q.notifications[1..] == q.taken + q.notifications;
      }
    case ReadyPolled =>
    case NodeActs(reply) =>
      if q.next.Some? {
        HearAllFairly(k, Acting(q), Produced(k, q.next.value, reply));
      }
    case NodeReports(e) => HearFairly(k, q, Reported(e));
  }

  /** Over every run: what was taken and is queued is exactly what fits its limits and found room,
      in order, and the count of drops exactly what fits and found none or is too big. */
  lemma {:induction false} DropsExactly(k: Settings, ops: seq<Op>)
    ensures Fair(k, Run(k, EMPTY, ops))
  {
    if ops != [] {
      DropsExactly(k, ops[..|ops| - 1]);
      NextFairly(k, Run(k, EMPTY, ops[..|ops| - 1]), ops[|ops| - 1]);
    }
  }

  /** Everything due fits and found room. */
  predicate AllFit(depth: nat, due: seq<Due>, met: seq<nat>) {
    |met| == |due| && forall i :: 0 <= i < |due| ==> WithinLimits(due[i]) && met[i] < depth
  }

  lemma {:induction false} AllKept(depth: nat, due: seq<Due>, met: seq<nat>)
    requires AllFit(depth, due, met)
    ensures DroppedOf(depth, due, met) == 0
    ensures |KeptOf(depth, due, met)| == |due|
    ensures forall i :: 0 <= i < |due| ==> KeptOf(depth, due, met)[i] == FormOf(due[i])
  {
    if due != [] {
      AllKept(depth, due[..|due| - 1], met[..|due| - 1]);
    }
  }

  /** With room and everything within its limits, the application hears all of it, in order. */
  lemma NothingDropped(k: Settings, ops: seq<Op>)
    requires var q := Run(k, EMPTY, ops); AllFit(k.depth, q.due, q.met)
    ensures var q := Run(k, EMPTY, ops);
      && q.lost == 0 && |q.taken + q.notifications| == |q.due|
      && forall i :: 0 <= i < |q.due| ==> (q.taken + q.notifications)[i] == FormOf(q.due[i])
  {
    var q := Run(k, EMPTY, ops);
    DropsExactly(k, ops);
    AllKept(k.depth, q.due, q.met);
  }

  /** What each command makes due, and the frame it gives back. */
  ghost predicate Carried(k: Settings, c: Command, reply: NodeReply, due: seq<Due>, frame: Option<seq<byte>>) {
    match c
    case Ping(_, _) => due == [] && frame == reply.frame
    case Subscribe(_) => due == [] && frame == None
    case Unsubscribe(_) => due == [] && frame == None
    case Publish(_, _, _, _) => due == ReportedAll(reply.events) && frame == reply.frame
    case SpotterLog(_, _) => due == ReportedAll(reply.events) && frame == reply.frame
    case SpotterTxData(_) => due == ReportedAll(reply.events) && frame == reply.frame
    case ServiceRequest(service, _, _) => CarriedRequest(service, reply, due, frame)
    case SysInfoRequest(target, _) => CarriedRequest(k.names(target, SysInfo), reply, due, frame)
    case ConfigMapRequest(target, _, _) => CarriedRequest(k.names(target, ConfigMap), reply, due, frame)
    case MetricsRequest(target, _) => CarriedRequest(k.names(target, Metrics), reply, due, frame)
    case PowerInfoRequest(_) => CarriedRequest(POWER_INFO, reply, due, frame)
  }

  ghost predicate CarriedRequest(service: Name, reply: NodeReply, due: seq<Due>, frame: Option<seq<byte>>) {
    && due == ReportedAll(reply.events) + [Answered(service, reply.result)]
    && frame == match reply.result { case Success(_) => reply.frame case Failure(_) => None }
  }

  lemma CarriedExactly(k: Settings, c: Command, reply: NodeReply)
    ensures Carried(k, c, reply, Produced(k, c, reply), FrameFor(c, reply))
  {
    assert ReportedAll([]) == [];
    assert ReportedAll(reply.events) + [] == ReportedAll(reply.events);
  }

  lemma {:induction false} AfterBoth(queue: seq<Notification>, depth: nat, a: seq<Due>, b: seq<Due>)
    ensures AfterAll(queue, depth, a + b) == AfterAll(AfterAll(queue, depth, a), depth, b)
    decreases |b|
  {
    if b == [] {
      assert a + b == a;
    } else {
      AfterBoth(queue, depth, a, b[..|b| - 1]);
      assert (a + b)[..|a + b| - 1] == a + b[..|b| - 1];
    }
  }

  /** Nothing was taken from the queue. */
  ghost predicate Untaken(k: Settings, q: Queues) {
    q.notifications == AfterAll([], k.depth, q.due)
  }

  lemma ReportUntaken(k: Settings, q: Queues, e: Event)
    requires Untaken(k, q)
    ensures Untaken(k, Hear(k, q, Reported(e)))
  {
    assert (q.due + [Reported(e)])[..|q.due|] == q.due;
  }

  lemma HearUntaken(k: Settings, q: Queues, due: seq<Due>)
    requires Untaken(k, q)
    ensures Untaken(k, HearAll(k, q, due))
  {
    HearingOnly(k, q, due);
    AfterBoth([], k.depth, q.due, due);
  }

  lemma ActUntaken(k: Settings, q: Queues, reply: NodeReply)
    requires Untaken(k, q) && q.next.Some?
    ensures Untaken(k, Next(k, q, NodeActs(reply)))
  {
    assert Untaken(k, Acting(q));
    HearUntaken(k, Acting(q), Produced(k, q.next.value, reply));
  }

  lemma {:induction false} UntakenIsAll(k: Settings, ops: seq<Op>)
    requires AppTakes !in ops
    ensures Untaken(k, Run(k, EMPTY, ops))
  {
    if ops != [] {
      UntakenIsAll(k, ops[..|ops| - 1]);
      var q, op := Run(k, EMPTY, ops[..|ops| - 1]), ops[|ops| - 1];
      if op.NodeReports? {
        ReportUntaken(k, q, op.event);
      } else if op.NodeActs? && q.next.Some? {
        ActUntaken(k, q, op.reply);
      }
    }
  }

  /** An application that stops reading keeps the first notifications due, as many as the queue
      holds, and loses all later ones. */
  lemma StoppedReading(k: Settings, ops: seq<Op>)
    requires AppTakes !in ops
    ensures var q := Run(k, EMPTY, ops);
      var owned := OwnedOf(q.due);
      q.notifications == owned[..if |owned| <= k.depth then |owned| else k.depth]
  {
    UntakenIsAll(k, ops);
    QueueKeepsTheOldest([], k.depth, Run(k, EMPTY, ops).due);
  }

  // ---------- the code ----------

  /** Both queues and the node's end of them, with the history as ghost fields. */
  class App {
    const settings: Settings
    var commands: seq<Command>
    var notifications: seq<Notification>
    var next: Option<Command>
    var dropped: u32
    ghost var accepted: seq<Command>
    ghost var done: seq<Command>
    ghost var taken: seq<Notification>
    ghost var due: seq<Due>
    ghost var met: seq<nat>
    ghost var lost: nat

    ghost function View(): Queues
      reads this
    {
      Queues(commands, next, notifications, accepted, done, taken, due, met, lost)
    }

    ghost predicate Valid()
      reads this
    {
      |commands| <= settings.depth && |notifications| <= settings.depth && dropped == lost % U32_LIMIT
    }

    constructor (settings: Settings)
      ensures Valid() && View() == EMPTY && this.settings == settings
    {
      this.settings := settings;
      commands, notifications, next, dropped := [], [], None, 0;
      accepted, done, taken, due, met, lost := [], [], [], [], [], 0;
    }

    /** `NodeHandle::send`, one attempt: it waits while the queue is full. */
    method Send(c: Command) returns (ok: bool)
      requires Valid()
      modifies this`commands, this`accepted
      ensures Valid() && (ok <==> |old(commands)| < settings.depth)
      ensures accepted == if ok then old(accepted) + [c] else old(accepted)
      ensures View() == Next(settings, old(View()), AppSends(c))
    {
      ok := |commands| < settings.depth;
      if ok {
        commands := commands + [c];
        accepted := accepted + [c];
      }
    }

    /** `NodeHandle::notification`, one attempt. */
    method Take() returns (r: Option<Notification>)
      requires Valid()
      modifies this`notifications, this`taken
      ensures Valid() && (r.None? <==> old(notifications) == [])
      ensures taken == if r.Some? then old(taken) + [r.value] else old(taken)
      ensures r.Some? ==> r.value == old(notifications)[0] && notifications == old(notifications)[1..]
      ensures View() == Next(settings, old(View()), AppTakes)
    {
      if notifications == [] {
        return None;
      }
      r := Some(notifications[0]);
      notifications := notifications[1..];
      taken := taken + [r.value];
    }

    /** One poll of `ready`. A pending poll has taken nothing, so the future may be dropped;
        a command already held is not replaced. */
    method PollReady() returns (ready: bool)
      requires Valid()
      modifies this`commands, this`next
      ensures Valid()
      ensures ready <==> next.Some?
      ensures !ready ==> commands == old(commands) == [] && next == old(next)
      ensures old(next).Some? ==> next == old(next) && commands == old(commands)
      ensures View() == Next(settings, old(View()), ReadyPolled)
    {
      if next.None? {
        if commands == [] {
          return false;
        }
        next := Some(commands[0]);
        commands := commands[1..];
      }
      ready := true;
    }

    /** The wrapping count. */
    method Drop()
      requires dropped == lost % U32_LIMIT
      modifies this`dropped, this`lost
      ensures dropped == lost % U32_LIMIT && lost == old(lost) + 1
    {
      dropped := (dropped + 1) % U32_LIMIT;
      lost := lost + 1;
    }

    /** `notify`: an event that is not owned counts as dropped only if it is a publication, a
        service reply or a service timeout. */
    method Notify(e: Event)
      requires Valid()
      modifies this`notifications, this`dropped, this`lost, this`due, this`met
      ensures Valid() && due == old(due) + [Reported(e)]
      ensures notifications == TrySend(old(notifications), settings.depth, FromEvent(e))
      ensures View() == Hear(settings, old(View()), Reported(e))
      ensures Heard(settings.depth, Reported(e), old(notifications), old(lost), notifications, lost)
    {
      HearExactly(settings, View(), Reported(e));
      met := met + [|notifications|];
      var n := FromEvent(e);
      var sent: bool;
      if n.Some? {
        sent := |notifications| < settings.depth;
        notifications := TrySend(notifications, settings.depth, n);
      } else {
        sent := !(e.Publication? || e.ServiceReply? || e.ServiceTimeout?);
      }
      if !sent {
        Drop();
      }
      due := due + [Reported(e)];
    }

    /** `requested`: every request is answered with what came of it. */
    method Requested(service: seq<byte>, reply: NodeReply) returns (frame: Option<seq<byte>>)
      requires Valid()
      modifies this`notifications, this`dropped, this`lost, this`due, this`met
      ensures Valid() && due == old(due) + [Answered(service, reply.result)]
      ensures frame == if reply.result.Success? then reply.frame else None
      ensures notifications == TrySend(old(notifications), settings.depth, NotificationOf(Answered(service, reply.result)))
      ensures View() == Hear(settings, old(View()), Answered(service, reply.result))
      ensures Heard(settings.depth, Answered(service, reply.result), old(notifications), old(lost), notifications, lost)
    {
      HearExactly(settings, View(), Answered(service, reply.result));
      met := met + [|notifications|];
      if |service| <= SERVICE_NAME_BYTES && |notifications| < settings.depth {
        notifications := notifications + [ServiceRequested(service, reply.result)];
      } else {
        Drop();
      }
      due := due + [Answered(service, reply.result)];
      frame := if reply.result.Success? then reply.frame else None;
    }

    /** `act`: carries out the command held, if there is one, notifying what the node reports
        meanwhile. */
    method Act(reply: NodeReply) returns (frame: Option<seq<byte>>)
      requires Valid()
      modifies this`next, this`done, this`notifications, this`dropped, this`lost, this`due, this`met
      ensures Valid() && next.None? && done == old(done) + Held(old(next))
      ensures old(next).None? ==> frame.None? && notifications == old(notifications) && due == old(due)
      ensures old(next).Some? ==>
                && frame == FrameFor(old(next).value, reply)
                && Carried(settings, old(next).value, reply, Produced(settings, old(next).value, reply), frame)
                && due == old(due) + Produced(settings, old(next).value, reply)
                && notifications == AfterAll(old(notifications), settings.depth, Produced(settings, old(next).value, reply))
      ensures View() == Next(settings, old(View()), NodeActs(reply))
    {
      if next.None? {
        return None;
      }
      var c := next.value;
      next := None;
      done := done + [c];
      ghost var q := View();
      CarriedExactly(settings, c, reply);
      frame := CarryOut(c, reply);
      HearingOnly(settings, q, Produced(settings, c, reply));
    }

    /** The arms of `act`, over what the node did. */
    method CarryOut(c: Command, reply: NodeReply) returns (frame: Option<seq<byte>>)
      requires Valid()
      modifies this`notifications, this`dropped, this`lost, this`due, this`met
      ensures Valid() && frame == FrameFor(c, reply)
      ensures View() == HearAll(settings, old(View()), Produced(settings, c, reply))
    {
      frame := reply.frame;
      ProducedHeard(settings, View(), c, reply);
      if Reports(c) {
        NotifyAll(reply.events);
      } else if c.Subscribe? || c.Unsubscribe? {
        frame := None;
      }
      if IsRequest(c) {
        frame := Requested(ServiceOf(settings, c), reply);
      }
    }

    /** The closure of the node's `_with` calls, over the events of one call. */
    method NotifyAll(events: seq<Event>)
      requires Valid()
      modifies this`notifications, this`dropped, this`lost, this`due, this`met
      ensures Valid() && View() == HearAll(settings, old(View()), ReportedAll(events))
    {
      for i := 0 to |events|
        invariant Valid() && View() == HearAll(settings, old(View()), ReportedAll(events[..i]))
      {
        Notify(events[i]);
        assert ReportedAll(events[..i + 1])[..i] == ReportedAll(events[..i]);
      }
      assert events[..|events|] == events;
    }

    /** `on_event`. */
    method OnEvent(e: Event)
      requires Valid()
      modifies this`notifications, this`dropped, this`lost, this`due, this`met
      ensures Valid() && due == old(due) + [Reported(e)]
      ensures notifications == TrySend(old(notifications), settings.depth, FromEvent(e))
      ensures View() == Next(settings, old(View()), NodeReports(e))
      ensures Heard(settings.depth, Reported(e), old(notifications), old(lost), notifications, lost)
    {
      Notify(e);
    }
  }

  /** The code makes every run that `Run` says, from a fresh `App`: the commands accepted and the
      notifications handed to the application are those of the run, as is the drop count. */
  method Drive(app: App, ops: seq<Op>) returns (accepted: seq<Command>, taken: seq<Notification>)
    requires app.Valid() && app.View() == EMPTY
    modifies app
    ensures app.Valid() && app.View() == Run(app.settings, EMPTY, ops)
    ensures accepted == app.accepted == app.done + Held(app.next) + app.commands
    ensures taken == app.taken && InOrder(taken + app.notifications, OwnedOf(app.due))
    ensures AnswersIn(app.due) == Requests(app.settings, app.done)
    ensures app.dropped == app.lost % U32_LIMIT && |app.met| == |app.due|
    ensures taken + app.notifications == KeptOf(app.settings.depth, app.due, app.met)
    ensures app.lost == DroppedOf(app.settings.depth, app.due, app.met)
    ensures app.lost == Notifiables(app.due) - |taken| - |app.notifications| <==> UnheardIn(app.due) == 0
  {
    accepted, taken := [], [];
    for i := 0 to |ops|
      invariant app.Valid() && app.View() == Run(app.settings, EMPTY, ops[..i])
      invariant accepted == app.accepted && taken == app.taken
    {
      assert ops[..i + 1][..i] == ops[..i];
      var a, t := Happen(app, ops[i]);
      accepted, taken := accepted + a, taken + t;
    }
    assert ops[..|ops|] == ops;
    NothingLostUnaccounted(app.settings, ops);
    DropsExactly(app.settings, ops);
  }

  method Happen(app: App, op: Op) returns (accepted: seq<Command>, taken: seq<Notification>)
    requires app.Valid()
    modifies app
    ensures app.Valid() && app.View() == Next(app.settings, old(app.View()), op)
    ensures app.accepted == old(app.accepted) + accepted && app.taken == old(app.taken) + taken
  {
    accepted, taken := [], [];
    match op
    case AppSends(c) =>
      var ok := app.Send(c);
      if ok {
        accepted := [c];
      }
    case AppTakes =>
      var n := app.Take();
      if n.Some? {
        taken := [n.value];
      }
    case ReadyPolled => var _ := app.PollReady();
    case NodeActs(reply) => var _ := app.Act(reply);
    case NodeReports(e) => app.OnEvent(e);
  }
}
