/** What the scheduler's steps promise over whole runs: every thread that was started is in exactly one
    place, the one its state says, and no step loses one. */
module SchedulerRuns {
  import opened Scheduler
  import opened Prelude

  /** One position a thread can take. */
  datatype Slot = Current(cpu: nat) | Queued(cpu: nat, position: nat) | Parked(queue: nat, position: nat)

  predicate Holds(k: Kernel, t: nat, s: Slot) {
    match s
    case Current(c) => c < |k.cpus| && k.cpus[c].current == t
    case Queued(c, i) => c < |k.cpus| && i < |k.cpus[c].queue| && k.cpus[c].queue[i] == t
    case Parked(w, i) => w < |k.waits| && i < |k.waits[w]| && k.waits[w][i] == t
  }

  /** The kind of place that goes with each state; an idle thread may be current while still ready. */
  predicate Matches(th: Thread, s: Slot) {
    match s
    case Current(_) => th.state == Running || th.state == Dying || (th.idle && th.state == Ready)
    case Queued(_, _) => th.state == Ready
    case Parked(w, _) => (th.state == Blocked || th.state == BlockedReadLock) && th.blockingOn == Some(w)
  }

  /** Started: not a new thread, and not one that died and left its CPU. */
  predicate Placed(th: Thread) {
    th.at != Nowhere
  }

  /** In a good state a thread is in one slot at most, and in one exactly if it is running or blocked, or
      ready and started. */
  lemma OneSlot(k: Kernel, t: nat)
    requires Inv(k) && t < |k.threads|
    ensures forall s, s' | Holds(k, t, s) && Holds(k, t, s') :: s == s'
    ensures forall s | Holds(k, t, s) :: Matches(k.threads[t], s)
    ensures (exists s :: Holds(k, t, s)) <==> Placed(k.threads[t])
    ensures !Placed(k.threads[t]) ==> k.threads[t].state in {Initial, Ready, Dying}
  {
    assert ThreadOk(k, t);
    forall s | Holds(k, t, s) ensures SlotOf(k, t, s) && Matches(k.threads[t], s) {
      SlotFacts(k, t, s);
    }
    if Placed(k.threads[t]) {
      SlotExists(k, t);
    }
    forall s, s' | Holds(k, t, s) && Holds(k, t, s') ensures s == s' {
      assert SlotOf(k, t, s) && SlotOf(k, t, s');
      SlotUnique(k, t, s, s');
    }
  }

  ghost predicate SlotOf(k: Kernel, t: nat, s: Slot)
    requires t < |k.threads|
  {
    match s
    case Current(c) => k.threads[t].at == OnCpu(c)
    case Queued(c, _) => k.threads[t].at == InQueue(c)
    case Parked(w, _) => k.threads[t].at == Waiting(w)
  }

  lemma SlotFacts(k: Kernel, t: nat, s: Slot)
    requires Inv(k) && t < |k.threads| && Holds(k, t, s)
    ensures SlotOf(k, t, s) && Matches(k.threads[t], s)
  {
    assert ThreadOk(k, t);
    match s
    case Current(c) => assert CpuOk(k, c);
    case Queued(c, i) => assert CpuOk(k, c) && k.cpus[c].queue[i] in k.cpus[c].queue;
    case Parked(w, i) => assert WaitOk(k, w) && k.waits[w][i] in k.waits[w];
  }

  lemma SlotExists(k: Kernel, t: nat)
    requires Inv(k) && t < |k.threads| && Placed(k.threads[t])
    ensures exists s :: Holds(k, t, s)
  {
    assert ThreadOk(k, t);
    match k.threads[t].at
    case OnCpu(c) => assert Holds(k, t, Current(c));
    case InQueue(c) =>
      assert CpuOk(k, c);
      var i: nat :| i < |k.cpus[c].queue| && k.cpus[c].queue[i] == t;
      assert Holds(k, t, Queued(c, i));
    case Waiting(w) =>
      assert WaitOk(k, w);
      var i: nat :| i < |k.waits[w]| && k.waits[w][i] == t;
      assert Holds(k, t, Parked(w, i));
  }

  lemma SlotUnique(k: Kernel, t: nat, s: Slot, s': Slot)
    requires Inv(k) && t < |k.threads| && Holds(k, t, s) && Holds(k, t, s') && SlotOf(k, t, s) && SlotOf(k, t, s')
    ensures s == s'
  {
    match s
    case Current(_) =>
    case Queued(c, i) => assert CpuOk(k, c);
    case Parked(w, i) => assert WaitOk(k, w);
  }

  /** At boot every CPU runs its idle thread, `created` further threads are new, and all queues are empty. */
  function Boot(cpus: nat, waits: nat, created: nat): Kernel {
    Kernel(seq(cpus, i requires 0 <= i => Thread(Running, true, false, None, false, None, 0, OnCpu(i)))
           + seq(created, _ => Thread(Ready, false, false, None, false, None, 0, Nowhere)),
           seq(cpus, i requires 0 <= i => Cpu(i, i, [], [])),
           seq(waits, _ => []))
  }

  /** A good start, from which every new thread can be started on every CPU. */
  lemma BootGood(cpus: nat, waits: nat, created: nat)
    ensures var k := Boot(cpus, waits, created);
      Inv(k) && forall c: nat, t: nat | c < cpus <= t < cpus + created :: Allowed(k, c, Start(t))
  {
    var k := Boot(cpus, waits, created);
    forall c: nat | c < |k.cpus| ensures CpuOk(k, c) {
    }
  }

  // ----- nothing is lost

  /** Started, or dead after it was. */
  predicate Known(th: Thread) {
    Placed(th) || th.state == Dying
  }

  /** From `k` to `k'` no started thread is lost, and none changes its kind or its binding. */
  ghost predicate Kept(k: Kernel, k': Kernel) {
    && |k'.threads| == |k.threads| && |k'.cpus| == |k.cpus| && |k'.waits| == |k.waits|
    && (forall t: nat | t < |k.threads| :: Known(k.threads[t]) ==> Known(k'.threads[t]))
    && (forall t: nat | t < |k.threads| :: SameKind(k.threads[t], k'.threads[t]))
  }

  predicate SameKind(th: Thread, th': Thread) {
    th'.idle == th.idle && th'.init == th.init && th'.affinity == th.affinity && th'.hard == th.hard
  }

  lemma GiveUpLosesNone(k: Kernel, c: nat)
    requires c < |k.cpus| && CpuOk(k, c) && ThreadOk(k, k.cpus[c].current)
    ensures Kept(k, GiveUp(k, c))
  {
  }

  lemma PickNextLosesNone(k: Kernel, c: nat)
    requires c < |k.cpus| && k.cpus[c].current < |k.threads| && k.cpus[c].idle < |k.threads|
    requires forall i | 0 <= i < |k.cpus[c].queue| :: k.cpus[c].queue[i] < |k.threads|
    ensures Kept(k, PickNext(k, c))
  {
  }

  lemma RescheduleLosesNone(k: Kernel, c: nat)
    requires Inv(k) && c < |k.cpus|
    ensures Inv(Reschedule(k, c)) && Kept(k, Reschedule(k, c))
  {
    RescheduleKeeps(k, c);
    assert CpuOk(k, c);
    assert ThreadOk(k, k.cpus[c].current);
    GiveUpBetween(k, c);
    GiveUpLosesNone(k, c);
    PickNextLosesNone(GiveUp(k, c), c);
    hide GiveUp, PickNext, Between, Inv, CpuOk, ThreadOk;
  }

  lemma BlockLosesNone(k: Kernel, c: nat, w: nat, reader: bool)
    requires Inv(k) && w < |k.waits| && MayLeave(k, c)
    ensures Kept(k, AfterBlock(k, c, w, reader))
  {
    ParkBetween(k, c, w, reader);
    var k1 := Park(k, c, w, reader);
    assert Kept(k, k1);
    PickNextKeeps(k1, c);
    PickNextLosesNone(k1, c);
    hide PickNext, Between, Inv, CpuOk, ThreadOk;
  }

  lemma WakeLosesNone(k: Kernel, c: nat, w: nat, t: nat, code: int)
    requires Inv(k) && c < |k.cpus| && w < |k.waits| && t < |k.threads| && k.threads[t].at == Waiting(w)
    ensures Inv(Wake(k, c, w, t, code)) && Kept(k, Wake(k, c, w, t, code))
  {
    WakeKeeps(k, c, w, t, code);
  }

  lemma {:induction false} WakeEachLosesNone(k: Kernel, c: nat, w: nat, code: int)
    requires Inv(k) && c < |k.cpus| && w < |k.waits| && WakeEach(k, c, w, code).Next?
    ensures Kept(k, WakeEach(k, c, w, code).k)
    decreases |k.waits[w]|
  {
    if k.waits[w] != [] {
      var t := k.waits[w][0];
      assert WaitOk(k, w) && t in k.waits[w];
      WakeLosesNone(k, c, w, t, code);
      WakeEachLosesNone(Wake(k, c, w, t, code), c, w, code);
    }
  }

  lemma StealLosesNone(k: Kernel, c: nat, v: nat)
    requires Inv(k) && c < |k.cpus| && v < |k.cpus|
    requires Threads(k, k.cpus[v].queue) && StealChoice(k, k.cpus[v].queue, c).Some?
    ensures var t := StealChoice(k, k.cpus[v].queue, c).value;
      t < |k.threads| && Inv(Move(k, v, c, t)) && Kept(k, Move(k, v, c, t))
  {
    QueueThreads(k, v);
    StealRight(k, k.cpus[v].queue, c);
    MoveKeeps(k, v, c, StealChoice(k, k.cpus[v].queue, c).value);
  }

  lemma StepLosesNone(k: Kernel, c: nat, e: Event)
    requires Inv(k) && Allowed(k, c, e) && Do(k, c, e).Next?
    ensures Kept(k, Do(k, c, e).k)
  {
    hide Reschedule, AfterBlock, CpuOk, Between, Wake, Move;
    match e
    case Start(t) =>
    case Yield => RescheduleLosesNone(k, c);
    case Block(w, reader) => BlockLosesNone(k, c, w, reader);
    case WakeOne(w, reschedule, code) =>
      if k.waits[w] != [] {
        var t := k.waits[w][0];
        assert WaitOk(k, w) && t in k.waits[w];
        WakeLosesNone(k, c, w, t, code);
        RescheduleLosesNone(Wake(k, c, w, t, code), c);
      }
    case WakeAll(w, reschedule, code) =>
      if k.waits[w] != [] {
        WakeEachLosesNone(k, c, w, code);
        RescheduleLosesNone(WakeEach(k, c, w, code).k, c);
      }
    case TimeOut(t, code) =>
      assert ThreadOk(k, t);
      var w := k.threads[t].at.queue;
      WakeLosesNone(k, c, w, t, code);
      RescheduleLosesNone(Wake(k, c, w, t, code), c);
    case Exit(w, code) =>
      DyingKeeps(k, c);
      WakeEachLosesNone(MarkDying(k, c), c, w, code);
    case Balance(v) =>
      QueueThreads(k, v);
      if StealChoice(k, k.cpus[v].queue, c).Some? {
        StealLosesNone(k, c, v);
        RescheduleLosesNone(Move(k, v, c, StealChoice(k, k.cpus[v].queue, c).value), c);
      } else {
        RescheduleLosesNone(k, c);
      }
    case Tick(busy, free) =>
      QueueThreads(k, busy);
      if StealChoice(k, k.cpus[busy].queue, c).Some? {
        StealLosesNone(k, c, busy);
      }
  }

  // ----- runs

  /** A call on one CPU. */
  datatype Call = Call(cpu: nat, event: Event)

  /** A run: the states seen when the thread lock is free, and the calls between them, in lock order. The
      transition out of a state that breaks the invariant is left open. */
  ghost predicate IsRun(states: seq<Kernel>, calls: seq<Call>) {
    && |states| == |calls| + 1
    && (forall i | 0 <= i < |calls| :: IsStep(states[i], calls[i], states[i + 1]))
  }

  ghost predicate IsStep(k: Kernel, call: Call, k': Kernel) {
    && Allowed(k, call.cpu, call.event)
    && (Inv(k) ==> Do(k, call.cpu, call.event) == Next(k'))
  }

  lemma {:induction false} RunKeeps(states: seq<Kernel>, calls: seq<Call>, i: nat, j: nat)
    requires IsRun(states, calls) && Inv(states[0]) && i <= j < |states|
    ensures Inv(states[i]) && Inv(states[j]) && Kept(states[i], states[j])
  {
    if j > 0 {
      RunKeeps(states, calls, if i == j then j - 1 else i, j - 1);
      assert IsStep(states[j - 1], calls[j - 1], states[j]);
      StepKeeps(states[j - 1], calls[j - 1].cpu, calls[j - 1].event);
      StepLosesNone(states[j - 1], calls[j - 1].cpu, calls[j - 1].event);
    }
  }

  /** The placement law. In every state of every run, every thread that was started and is not dead is in
      exactly one slot, and its state is the one that goes with that slot. */
  lemma PlacementLaw(states: seq<Kernel>, calls: seq<Call>, i: nat, j: nat, t: nat)
    requires IsRun(states, calls) && Inv(states[0]) && i <= j < |states|
    requires t < |states[i].threads| && Placed(states[i].threads[t])
    ensures t < |states[j].threads|
    ensures states[j].threads[t].state != Dying ==> exists s :: Holds(states[j], t, s)
    ensures forall s | Holds(states[j], t, s) :: Matches(states[j].threads[t], s)
    ensures forall s, s' | Holds(states[j], t, s) && Holds(states[j], t, s') :: s == s'
  {
    RunKeeps(states, calls, i, j);
    assert Known(states[i].threads[t]);
    OneSlot(states[j], t);
  }
}
