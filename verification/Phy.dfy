/** Frame I/O over the ADIN2111 driver: a future that tries, registers its waker and tries
    again, against a driver that moves frames and wakes between any two of its steps. */
module PhyWakeups {
  import opened Outcomes

  /** Where the future is: not sending, at the start of a poll, after a failed first attempt,
      after registering its waker, or returned as pending. */
  datatype Pc = Idle | Entry | Missed | Armed | Parked

  // ---------- send ----------

  /** The future, the transmit queue and the driver. `pending` is the buffer `poll_fn` keeps,
      `waker` whether its waker is registered, `woken` whether the executor has a wake for the
      future, `notifying` whether the driver has drained and not yet woken. `asked` is every
      frame `send` was given and not dropped with, `wire` every frame the driver took. */
  datatype Sender<F> = Sender(
    pc: Pc, tx: seq<F>, cap: nat, pending: Option<F>, waker: bool, woken: bool, notifying: bool, asked: seq<F>, wire: seq<F>)

  datatype SendStep<F> = Call(frame: F) | Poll | FirstTry | Register | SecondTry | Dropped | Drain | Notify | Stray

  /** When a step can happen. The executor may poll a parked future without a wake, or drop it;
      the driver may drain any number of frames before it wakes, and wake for another reason
      (a stray wake, as one for a received frame) at any moment. */
  predicate CanSend<F>(s: Sender<F>, e: SendStep<F>) {
    match e
    case Call(_) => s.pc == Idle
    case Poll => s.pc == Parked
    case FirstTry => s.pc == Entry
    case Register => s.pc == Missed
    case SecondTry => s.pc == Armed
    case Dropped => s.pc == Parked || s.pc == Entry
    case Drain => s.tx != []
    case Notify => s.notifying
    case Stray => true
  }

  /** `pending.take()`, `transmit`, and the buffer put back if it is returned. */
  function Transmit<F>(s: Sender<F>, refused: Pc): Sender<F>
    requires s.pending.Some?
  {
    if |s.tx| < s.cap then s.(pc := Idle, tx := s.tx + [s.pending.value], pending := None) else s.(pc := refused)
  }

  /** The step's effect; a try needs the buffer, as the code's `expect` does. A new future starts
      with neither a wake nor a waker of its own. */
  function DoSend<F>(s: Sender<F>, e: SendStep<F>): Sender<F>
    requires CanSend(s, e) && (e.FirstTry? || e.SecondTry? ==> s.pending.Some?)
  {
    match e
    case Call(frame) =>
      s.(pc := Entry, pending := Some(frame), waker := false, woken := false, asked := s.asked + [frame])
    case Poll => s.(pc := Entry, woken := false)
    case FirstTry => Transmit(s, Missed)
    case Register => s.(pc := Armed, waker := true)
    case SecondTry => Transmit(s, Parked)
    case Dropped => s.(pc := Idle, pending := None, asked := if s.asked == [] then [] else s.asked[..|s.asked| - 1])
    case Drain => s.(tx := s.tx[1..], wire := s.wire + [s.tx[0]], notifying := true)
    case Notify => s.(notifying := false, waker := false, woken := s.woken || s.waker)
    case Stray => s.(waker := false, woken := s.woken || s.waker)
  }

  /** A parked sender has a wake on its way, or its waker is registered and either the queue
      still blocks it or the driver is about to wake it. */
  predicate SendIsSafe<F>(s: Sender<F>) {
    s.pc == Parked ==> s.woken || (s.waker && (|s.tx| == s.cap || s.notifying))
  }

  function Held<F>(o: Option<F>): seq<F> {
    if o.Some? then [o.value] else []
  }

  ghost predicate SendInvariant<F>(s: Sender<F>) {
    && |s.tx| <= s.cap
    && (s.pc == Idle <==> s.pending.None?)
    && s.asked == s.wire + s.tx + Held(s.pending)
    && (s.pc == Armed ==> s.waker || s.woken)
    && SendIsSafe(s)
  }

  /** No step breaks it, and no `expect` fires: every try finds the buffer. */
  lemma SendStepKeeps<F>(s: Sender<F>, e: SendStep<F>)
    requires SendInvariant(s) && CanSend(s, e)
    ensures e.FirstTry? || e.SecondTry? ==> s.pending.Some?
    ensures SendInvariant(DoSend(s, e))
  {
    match e
    case Drain => assert s.wire + [s.tx[0]] + s.tx[1..] == s.wire + s.tx;
    case Dropped => assert s.asked[..|s.asked| - 1] == s.wire + s.tx + [];
    case FirstTry => TryKeepsFrames(s, Missed);
    case SecondTry => TryKeepsFrames(s, Parked);
    case _ =>
  }

  lemma TryKeepsFrames<F>(s: Sender<F>, refused: Pc)
    requires s.pending.Some? && s.asked == s.wire + s.tx + Held(s.pending)
    ensures var next := Transmit(s, refused);
      next.asked == next.wire + next.tx + Held(next.pending)
  {
    if |s.tx| < s.cap {
      assert s.wire + s.tx + [s.pending.value] == s.wire + (s.tx + [s.pending.value]) + [];
    }
  }

  ghost predicate SendRun<F>(run: seq<Sender<F>>, steps: seq<SendStep<F>>) {
    && |run| == |steps| + 1
    && forall i :: 0 <= i < |steps| ==>
         && CanSend(run[i], steps[i]) && (steps[i].FirstTry? || steps[i].SecondTry? ==> run[i].pending.Some?)
         && run[i + 1] == DoSend(run[i], steps[i])
  }

  ghost predicate FreshSender<F>(s: Sender<F>) {
    s.pc == Idle && s.tx == [] && s.pending.None? && s.asked == [] && s.wire == []
  }

  /** In every run, under every interleaving with the driver, a parked sender has not missed
      its wakeup, and the frames given are those on the wire, those queued and the one held,
      in order: none lost, none twice. */
  lemma {:induction false} SendNeverMisses<F>(run: seq<Sender<F>>, steps: seq<SendStep<F>>, i: nat)
    requires SendRun(run, steps) && FreshSender(run[0]) && i < |run|
    ensures SendInvariant(run[i])
    ensures run[i].wire + run[i].tx <= run[i].asked
  {
    if i > 0 {
      SendNeverMisses(run, steps, i - 1);
      SendStepKeeps(run[i - 1], steps[i - 1]);
    }
  }

  /** From a parked state the driver alone brings the future to run: drain and notify leave a
      wake and room in the queue. */
  lemma DrainingWakes<F>(s: Sender<F>)
    requires SendInvariant(s) && s.pc == Parked && !s.woken && s.cap > 0
    ensures !s.notifying ==> CanSend(s, Drain) && CanSend(DoSend(s, Drain), Notify)
    ensures var t := if s.notifying then DoSend(s, Notify) else DoSend(DoSend(s, Drain), Notify); t.woken
    ensures !s.notifying ==> |DoSend(DoSend(s, Drain), Notify).tx| < s.cap
  {
  }

  /** Why the second attempt is there: without it a drain and its wake between the attempt
      and the registration leave a future parked with room in the queue and no wake due. */
  lemma WithoutTheSecondTry<F>(frame: F, queued: F)
    ensures var full := Sender(Idle, [queued], 1, None, false, false, false, [queued], []);
      var missed := DoSend(DoSend(full, Call(frame)), FirstTry);
      var drained := DoSend(DoSend(missed, Drain), Notify);
      var parked := DoSend(drained, Register).(pc := Parked);
      && SendInvariant(full) && missed.pc == Missed && drained.pc == Missed
      && !SendIsSafe(parked) && |parked.tx| < parked.cap
  {
  }

  // ---------- receive ----------

  /** The receiving future. `arrived` is every frame the driver queued, `taken` every one
      `receive` gave out. */
  datatype Receiver<F> = Receiver(
    pc: Pc, rx: seq<F>, waker: bool, woken: bool, notifying: bool, arrived: seq<F>, taken: seq<F>)

  datatype ReceiveStep<F> = CallReceive | PollAgain | FirstLook | Arm | SecondLook | Cancel | Deliver(frame: F) | Wake | StrayWake

  predicate CanReceive<F>(s: Receiver<F>, e: ReceiveStep<F>) {
    match e
    case CallReceive => s.pc == Idle
    case PollAgain => s.pc == Parked
    case FirstLook => s.pc == Entry
    case Arm => s.pc == Missed
    case SecondLook => s.pc == Armed
    case Cancel => s.pc == Parked || s.pc == Entry
    case Deliver(_) => true
    case Wake => s.notifying
    case StrayWake => true
  }

  function Look<F>(s: Receiver<F>, empty: Pc): Receiver<F> {
    if s.rx != [] then s.(pc := Idle, rx := s.rx[1..], taken := s.taken + [s.rx[0]]) else s.(pc := empty)
  }

  function DoReceive<F>(s: Receiver<F>, e: ReceiveStep<F>): Receiver<F>
    requires CanReceive(s, e)
  {
    match e
    case CallReceive => s.(pc := Entry, waker := false, woken := false)
    case PollAgain => s.(pc := Entry, woken := false)
    case FirstLook => Look(s, Missed)
    case Arm => s.(pc := Armed, waker := true)
    case SecondLook => Look(s, Parked)
    case Cancel => s.(pc := Idle)
    case Deliver(frame) => s.(rx := s.rx + [frame], arrived := s.arrived + [frame], notifying := true)
    case Wake => s.(notifying := false, waker := false, woken := s.woken || s.waker)
    case StrayWake => s.(waker := false, woken := s.woken || s.waker)
  }

  predicate ReceiveIsSafe<F>(s: Receiver<F>) {
    s.pc == Parked ==> s.woken || (s.waker && (s.rx == [] || s.notifying))
  }

  ghost predicate ReceiveInvariant<F>(s: Receiver<F>) {
    && s.arrived == s.taken + s.rx
    && (s.pc == Armed ==> s.waker || s.woken)
    && ReceiveIsSafe(s)
  }

  lemma ReceiveStepKeeps<F>(s: Receiver<F>, e: ReceiveStep<F>)
    requires ReceiveInvariant(s) && CanReceive(s, e)
    ensures ReceiveInvariant(DoReceive(s, e))
  {
    if (e.FirstLook? || e.SecondLook?) && s.rx != [] {
      assert s.rx == [s.rx[0]] + s.rx[1..];
      assert s.taken + s.rx == s.taken + [s.rx[0]] + s.rx[1..];
    } else if e.Deliver? {
      assert s.arrived + [e.frame] == s.taken + (s.rx + [e.frame]);
    }
  }

  ghost predicate ReceiveRun<F>(run: seq<Receiver<F>>, steps: seq<ReceiveStep<F>>) {
    && |run| == |steps| + 1
    && forall i :: 0 <= i < |steps| ==> CanReceive(run[i], steps[i]) && run[i + 1] == DoReceive(run[i], steps[i])
  }

  /** The same of `receive`, also when the future is dropped while parked: what it gives out
      is a prefix of what arrived, and no wakeup is missed. */
  lemma {:induction false} ReceiveNeverMisses<F>(run: seq<Receiver<F>>, steps: seq<ReceiveStep<F>>, i: nat)
    requires ReceiveRun(run, steps) && i < |run|
    requires run[0].pc == Idle && run[0].rx == [] && run[0].arrived == [] && run[0].taken == []
    ensures ReceiveInvariant(run[i]) && run[i].taken <= run[i].arrived
  {
    if i > 0 {
      ReceiveNeverMisses(run, steps, i - 1);
      ReceiveStepKeeps(run[i - 1], steps[i - 1]);
    }
  }
}
