/** Threads, run queues and wait queues as one state, and the steps that move threads between them:
    starting, rescheduling, blocking, waking, timing out, exiting and balancing. Every step runs under
    the global thread lock on one CPU. */
module Scheduler {
  import opened Prelude
  import Rings

  datatype RunState = Initial | Ready | Running | Blocked | BlockedReadLock | Dying

  /** Where a thread is. */
  datatype Place = Nowhere | OnCpu(cpu: nat) | InQueue(cpu: nat) | Waiting(queue: nat)

  /** `affinity` is the CPU a thread is bound to, if any. `at` records where the thread is. */
  datatype Thread = Thread(
    state: RunState, idle: bool, init: bool, affinity: Option<nat>, hard: bool,
    blockingOn: Option<nat>, blockCode: int, at: Place)

  datatype Cpu = Cpu(current: nat, idle: nat, queue: seq<nat>, zombies: seq<nat>)

  datatype Kernel = Kernel(threads: seq<Thread>, cpus: seq<Cpu>, waits: seq<seq<nat>>)

  // ----- the invariant

  ghost predicate CpuOk(k: Kernel, c: nat)
    requires c < |k.cpus|
  {
    var cpu := k.cpus[c];
    && cpu.current < |k.threads| && cpu.idle < |k.threads|
    && k.threads[cpu.current].at == OnCpu(c)
    && k.threads[cpu.idle].idle
    && (k.threads[cpu.idle].at == OnCpu(c) || k.threads[cpu.idle].at == InQueue(c))
    && Distinct(cpu.queue)
    && (forall t: nat :: t in cpu.queue <==> t < |k.threads| && k.threads[t].at == InQueue(c))
    && cpu.zombies == []
  }

  ghost predicate WaitOk(k: Kernel, w: nat)
    requires w < |k.waits|
  {
    && Distinct(k.waits[w])
    && (forall t: nat :: t in k.waits[w] <==> t < |k.threads| && k.threads[t].at == Waiting(w))
  }

  /** A thread's state says where it is. */
  ghost predicate ThreadOk(k: Kernel, t: nat)
    requires t < |k.threads|
  {
    var th := k.threads[t];
    && (!th.at.Waiting? ==> th.blockingOn == None)
    && match th.at
       case OnCpu(c) =>
         && c < |k.cpus| && k.cpus[c].current == t
         && (th.state == Running || (th.idle && th.state == Ready) || (!th.idle && th.state == Dying))
       case InQueue(c) => c < |k.cpus| && th.state == Ready
       case Waiting(w) =>
         && w < |k.waits| && (th.state == Blocked || th.state == BlockedReadLock)
         && th.blockingOn == Some(w) && !th.idle
       case Nowhere => th.state == Initial || th.state == Ready || th.state == Dying
  }

  ghost predicate Inv(k: Kernel) {
    && (forall c: nat | c < |k.cpus| :: CpuOk(k, c))
    && (forall w: nat | w < |k.waits| :: WaitOk(k, w))
    && (forall t: nat | t < |k.threads| :: ThreadOk(k, t))
  }

  // ----- updates

  function SetThread(k: Kernel, t: nat, th: Thread): Kernel
    requires t < |k.threads|
  {
    k.(threads := k.threads[t := th])
  }

  function SetCpu(k: Kernel, c: nat, cpu: Cpu): Kernel
    requires c < |k.cpus|
  {
    k.(cpus := k.cpus[c := cpu])
  }

  /** enqueue, on the current CPU. */
  function Enqueue(k: Kernel, c: nat, t: nat): Kernel
    requires c < |k.cpus| && t < |k.threads|
  {
    var cpu := k.cpus[c];
    if k.threads[t].state == Dying then SetCpu(k, c, cpu.(zombies := cpu.zombies + [t]))
    else SetCpu(SetThread(k, t, k.threads[t].(at := InQueue(c))), c, cpu.(queue := cpu.queue + [t]))
  }

  /** The first half of reschedule_locked and schedule: the current thread, if it can run on, becomes ready
      and goes to the back of the queue. A dying one goes nowhere: only ready threads are enqueued. */
  function GiveUp(k: Kernel, c: nat): Kernel
    requires c < |k.cpus| && k.cpus[c].current < |k.threads|
  {
    var cur := k.cpus[c].current;
    var th := k.threads[cur];
    var k1 := if th.state == Running then SetThread(k, cur, th.(state := Ready)) else k;
    if k1.threads[cur].state == Ready then Enqueue(k1, c, cur)
    else if th.state == Dying then SetThread(k, cur, th.(at := Nowhere))
    else k
  }

  /** The second half: fetch the front of the queue, or fall back on the idle thread, and switch to it
      unless it is current already. */
  function PickNext(k: Kernel, c: nat): Kernel
    requires c < |k.cpus| && k.cpus[c].current < |k.threads| && k.cpus[c].idle < |k.threads|
    requires forall i | 0 <= i < |k.cpus[c].queue| :: k.cpus[c].queue[i] < |k.threads|
  {
    var cpu := k.cpus[c];
    var next := if cpu.queue == [] then cpu.idle else cpu.queue[0];
    var rest := if cpu.queue == [] then [] else cpu.queue[1..];
    var state := if next == cpu.current then k.threads[next].state else Running;
    SetCpu(SetThread(k, next, k.threads[next].(state := state, at := OnCpu(c))), c,
           cpu.(queue := rest, current := next))
  }

  /** Between the halves: the current thread of `c` has left the CPU, at the back of the queue if it is
      queued, and the idle thread is queued. */
  ghost predicate Between(k: Kernel, c: nat) {
    && c < |k.cpus|
    && var cpu := k.cpus[c];
    && cpu.current < |k.threads| && cpu.idle < |k.threads|
    && k.threads[cpu.current].at != OnCpu(c)
    && k.threads[cpu.idle].idle && k.threads[cpu.idle].at == InQueue(c)
    && (cpu.current in cpu.queue ==> cpu.queue[|cpu.queue| - 1] == cpu.current)
    && QueueOk(k, c)
    && (forall d: nat | d < |k.cpus| && d != c :: CpuOk(k, d))
    && (forall w: nat | w < |k.waits| :: WaitOk(k, w))
    && (forall t: nat | t < |k.threads| :: ThreadOk(k, t))
  }

  ghost predicate QueueOk(k: Kernel, c: nat)
    requires c < |k.cpus|
  {
    var cpu := k.cpus[c];
    && Distinct(cpu.queue)
    && (forall t: nat :: t in cpu.queue <==> t < |k.threads| && k.threads[t].at == InQueue(c))
    && cpu.zombies == []
  }

  function Reschedule(k: Kernel, c: nat): Kernel
    requires Inv(k) && c < |k.cpus|
  {
    GiveUpBetween(k, c);
    PickNext(GiveUp(k, c), c)
  }

  lemma GiveUpBetween(k: Kernel, c: nat)
    requires Inv(k) && c < |k.cpus|
    ensures k.cpus[c].current < |k.threads|
    ensures Between(GiveUp(k, c), c)
    ensures forall i | 0 <= i < |GiveUp(k, c).cpus[c].queue| :: GiveUp(k, c).cpus[c].queue[i] < |k.threads|
  {
    assert CpuOk(k, c);
    var cur := k.cpus[c].current;
    assert ThreadOk(k, cur) && ThreadOk(k, k.cpus[c].idle);
    var k2 := GiveUp(k, c);
    GiveUpQueue(k, c);
    forall d: nat | d < |k.cpus| && d != c ensures CpuOk(k2, d) {
      assert CpuOk(k, d);
    }
    forall w: nat | w < |k.waits| ensures WaitOk(k2, w) {
      assert WaitOk(k, w);
    }
    forall t: nat | t < |k.threads| ensures ThreadOk(k2, t) {
      assert ThreadOk(k, t);
    }
  }

  lemma GiveUpQueue(k: Kernel, c: nat)
    requires c < |k.cpus| && CpuOk(k, c) && ThreadOk(k, k.cpus[c].current) && ThreadOk(k, k.cpus[c].idle)
    ensures var k2 := GiveUp(k, c);
      && QueueOk(k2, c) && k2.threads[k.cpus[c].idle].at == InQueue(c)
      && (k.cpus[c].current in k2.cpus[c].queue ==> k2.cpus[c].queue[|k2.cpus[c].queue| - 1] == k.cpus[c].current)
      && forall i | 0 <= i < |k2.cpus[c].queue| :: k2.cpus[c].queue[i] < |k.threads|
  {
    var k2, cur := GiveUp(k, c), k.cpus[c].current;
    assert cur !in k.cpus[c].queue;
    var q := k2.cpus[c].queue;
    forall i | 0 <= i < |q| ensures q[i] < |k.threads| {
      assert q[i] in q;
    }
  }

  /** The idle thread is always there to fetch; the thread fetched is ready, as switch_to asserts; and
      only an idle thread can be fetched while current. */
  lemma PickNextFacts(k: Kernel, c: nat)
    requires Between(k, c)
    ensures k.cpus[c].queue != []
    ensures var next := k.cpus[c].queue[0];
      && next < |k.threads| && k.threads[next].state == Ready && k.threads[next].at == InQueue(c)
      && (next == k.cpus[c].current ==> next == k.cpus[c].idle)
  {
    var cpu := k.cpus[c];
    assert cpu.idle in cpu.queue && cpu.queue[0] in cpu.queue;
    assert ThreadOk(k, cpu.queue[0]);
  }

  lemma PickNextKeeps(k: Kernel, c: nat)
    requires Between(k, c)
    ensures forall i | 0 <= i < |k.cpus[c].queue| :: k.cpus[c].queue[i] < |k.threads|
    ensures Inv(PickNext(k, c))
  {
    PickNextFacts(k, c);
    var cpu := k.cpus[c];
    forall i | 0 <= i < |cpu.queue| ensures cpu.queue[i] < |k.threads| {
      assert cpu.queue[i] in cpu.queue;
    }
    var k' := PickNext(k, c);
    TailMembers(cpu.queue);
    forall d: nat | d < |k'.cpus| ensures CpuOk(k', d) {
      assert d != c ==> CpuOk(k, d);
    }
    forall w: nat | w < |k'.waits| ensures WaitOk(k', w) {
      assert WaitOk(k, w);
    }
    forall t: nat | t < |k'.threads| ensures ThreadOk(k', t) {
      assert ThreadOk(k, t);
    }
  }

  lemma TailMembers(q: seq<nat>)
    requires q != [] && Distinct(q)
    ensures Distinct(q[1..])
    ensures forall t :: t in q[1..] <==> t in q && t != q[0]
  {
    assert q == [q[0]] + q[1..];
  }

  lemma RescheduleKeeps(k: Kernel, c: nat)
    requires Inv(k) && c < |k.cpus|
    ensures Inv(Reschedule(k, c))
  {
    GiveUpBetween(k, c);
    PickNextKeeps(GiveUp(k, c), c);
  }

  // ----- blocking

  /** block_etc up to the reschedule: the current thread joins a wait queue. */
  function Park(k: Kernel, c: nat, w: nat, reader: bool): Kernel
    requires c < |k.cpus| && k.cpus[c].current < |k.threads| && w < |k.waits|
  {
    var cur := k.cpus[c].current;
    var th := k.threads[cur].(
      state := if reader then BlockedReadLock else Blocked, blockingOn := Some(w), blockCode := 0, at := Waiting(w));
    SetThread(k, cur, th).(waits := k.waits[w := k.waits[w] + [cur]])
  }

  lemma ParkBetween(k: Kernel, c: nat, w: nat, reader: bool)
    requires Inv(k) && c < |k.cpus| && w < |k.waits|
    requires Current(k, c).state == Running && !Current(k, c).idle
    ensures k.cpus[c].current < |k.threads| && Between(Park(k, c, w, reader), c)
  {
    assert CpuOk(k, c) && WaitOk(k, w);
    var cur := k.cpus[c].current;
    assert ThreadOk(k, cur) && ThreadOk(k, k.cpus[c].idle);
    assert cur !in k.waits[w] && cur !in k.cpus[c].queue;
    var k1 := Park(k, c, w, reader);
    forall d: nat | d < |k.cpus| && d != c ensures CpuOk(k1, d) {
      assert CpuOk(k, d);
    }
    forall v: nat | v < |k.waits| ensures WaitOk(k1, v) {
      assert WaitOk(k, v);
    }
    forall t: nat | t < |k.threads| ensures ThreadOk(k1, t) {
      assert ThreadOk(k, t);
    }
  }

  // ----- waking

  /** dequeue from a wait queue, then unblock on the current CPU. */
  function Wake(k: Kernel, c: nat, w: nat, t: nat, code: int): Kernel
    requires c < |k.cpus| && w < |k.waits| && t < |k.threads|
  {
    var th := k.threads[t].(blockCode := code, blockingOn := None, state := Ready);
    Enqueue(SetThread(k, t, th).(waits := k.waits[w := Drop(k.waits[w], t)]), c, t)
  }

  lemma WakeKeeps(k: Kernel, c: nat, w: nat, t: nat, code: int)
    requires Inv(k) && c < |k.cpus| && w < |k.waits| && t < |k.threads| && k.threads[t].at == Waiting(w)
    ensures Inv(Wake(k, c, w, t, code))
  {
    var k' := Wake(k, c, w, t, code);
    assert WaitOk(k, w) && CpuOk(k, c) && ThreadOk(k, t);
    DropMembers(k.waits[w], t);
    assert t !in k.cpus[c].queue;
    forall d: nat | d < |k.cpus| ensures CpuOk(k', d) {
      assert CpuOk(k, d);
    }
    forall v: nat | v < |k.waits| ensures WaitOk(k', v) {
      assert WaitOk(k, v);
    }
    forall u: nat | u < |k.threads| ensures ThreadOk(k', u) {
      assert ThreadOk(k, u);
    }
  }

  /** Unblocking asserts that the thread is not bound to another CPU. */
  predicate MayWakeHere(th: Thread, c: nat) {
    th.affinity == None || th.affinity == Some(c)
  }

  function Current(k: Kernel, c: nat): Thread
    requires Inv(k) && c < |k.cpus|
  {
    assert CpuOk(k, c);
    k.threads[k.cpus[c].current]
  }

  /** What a step comes to: a stop of the kernel, a run queue whose links are no ring any more, or the next
      state. */
  datatype Outcome = Panic | Broken | Next(k: Kernel)

  function RescheduleIf(k: Kernel, c: nat, yes: bool): Kernel
    requires Inv(k) && c < |k.cpus|
  {
    if yes then Reschedule(k, c) else k
  }

  function AfterBlock(k: Kernel, c: nat, w: nat, reader: bool): Kernel
    requires Inv(k) && c < |k.cpus| && w < |k.waits|
    requires Current(k, c).state == Running && !Current(k, c).idle
  {
    ParkBetween(k, c, w, reader);
    PickNextKeeps(Park(k, c, w, reader), c);
    PickNext(Park(k, c, w, reader), c)
  }

  /** wake_one. */
  function AfterWakeOne(k: Kernel, c: nat, w: nat, reschedule: bool, code: int): Outcome
    requires Inv(k) && c < |k.cpus| && w < |k.waits|
  {
    if k.waits[w] == [] then Next(k)
    else
      var t := k.waits[w][0];
      assert WaitOk(k, w) && t in k.waits[w];
      if !MayWakeHere(k.threads[t], c) then Panic
      else
        WakeKeeps(k, c, w, t, code);
        Next(RescheduleIf(Wake(k, c, w, t, code), c, reschedule && k.threads[t].affinity == Some(c)))
  }

  /** wake_all without its reschedule: wake from the front until the queue is empty. */
  function WakeEach(k: Kernel, c: nat, w: nat, code: int): (r: Outcome)
    requires Inv(k) && c < |k.cpus| && w < |k.waits|
    ensures r.Next? ==> Inv(r.k) && |r.k.cpus| == |k.cpus|
    decreases |k.waits[w]|
  {
    if k.waits[w] == [] then Next(k)
    else
      var t := k.waits[w][0];
      assert WaitOk(k, w) && t in k.waits[w];
      if !MayWakeHere(k.threads[t], c) then Panic
      else
        WakeKeeps(k, c, w, t, code);
        WakeEach(Wake(k, c, w, t, code), c, w, code)
  }

  function AfterWakeAll(k: Kernel, c: nat, w: nat, reschedule: bool, code: int): Outcome
    requires Inv(k) && c < |k.cpus| && w < |k.waits|
  {
    if k.waits[w] == [] then Next(k)
    else match WakeEach(k, c, w, code)
      case Next(k') => Next(RescheduleIf(k', c, reschedule))
      case stop => stop
  }

  /** unblock_thread, for a thread on a wait queue. Its first test lets no reader through. */
  function AfterTimeOut(k: Kernel, c: nat, t: nat, code: int): Outcome
    requires Inv(k) && c < |k.cpus| && t < |k.threads| && k.threads[t].at.Waiting?
  {
    var th := k.threads[t];
    if th.state == BlockedReadLock then Next(k)
    else if !MayWakeHere(th, c) then Panic
    else
      assert ThreadOk(k, t);
      WakeKeeps(k, c, th.at.queue, t, code);
      Next(RescheduleIf(Wake(k, c, th.at.queue, t, code), c, th.affinity == Some(c)))
  }

  /** thread::current::exit up to its reschedule: dying, and the joiners woken. */
  function AfterExit(k: Kernel, c: nat, w: nat, code: int): Outcome
    requires Inv(k) && c < |k.cpus| && w < |k.waits| && !Current(k, c).idle
  {
    DyingKeeps(k, c);
    WakeEach(MarkDying(k, c), c, w, code)
  }

  function MarkDying(k: Kernel, c: nat): Kernel
    requires Inv(k) && c < |k.cpus|
  {
    var th := Current(k, c);
    assert CpuOk(k, c);
    SetThread(k, k.cpus[c].current, th.(state := Dying))
  }

  lemma DyingKeeps(k: Kernel, c: nat)
    requires Inv(k) && c < |k.cpus| && !Current(k, c).idle
    ensures Inv(MarkDying(k, c))
  {
    assert CpuOk(k, c);
    var k' := MarkDying(k, c);
    forall d: nat | d < |k.cpus| ensures CpuOk(k', d) {
      assert CpuOk(k, d);
    }
    forall v: nat | v < |k.waits| ensures WaitOk(k', v) {
      assert WaitOk(k, v);
    }
    forall u: nat | u < |k.threads| ensures ThreadOk(k', u) {
      assert ThreadOk(k, u);
    }
  }

  // ----- stealing

  /** A thread that CPU `c` may take from a queue. */
  predicate Eligible(k: Kernel, c: nat, t: nat)
    requires c < |k.cpus| && t < |k.threads|
  {
    t != k.cpus[c].current && k.threads[t].state == Ready && !k.threads[t].idle && !k.threads[t].init
  }

  /** The three passes of steal: bound to the thief, softly bound, bound hard. */
  predicate Matches(k: Kernel, c: nat, t: nat, pass: nat)
    requires c < |k.cpus| && t < |k.threads|
  {
    && Eligible(k, c, t)
    && if pass == 1 then k.threads[t].affinity == Some(c) else if pass == 2 then !k.threads[t].hard else k.threads[t].hard
  }

  predicate Threads(k: Kernel, q: seq<nat>) {
    forall i | 0 <= i < |q| :: q[i] < |k.threads|
  }

  /** The last entry of a queue that a pass accepts. */
  function LastMatch(k: Kernel, q: seq<nat>, c: nat, pass: nat): (r: Option<nat>)
    requires c < |k.cpus| && Threads(k, q)
    ensures r.Some? ==> r.value in q && r.value < |k.threads| && Matches(k, c, r.value, pass)
    ensures r.None? ==> forall i | 0 <= i < |q| :: !Matches(k, c, q[i], pass)
  {
    if q == [] then None
    else
      var last := q[|q| - 1];
      if Matches(k, c, last, pass) then Some(last) else LastMatch(k, q[..|q| - 1], c, pass)
  }

  function StealChoice(k: Kernel, q: seq<nat>, c: nat): Option<nat>
    requires c < |k.cpus| && Threads(k, q)
  {
    var one, two := LastMatch(k, q, c, 1), LastMatch(k, q, c, 2);
    if one.Some? then one else if two.Some? then two else LastMatch(k, q, c, 3)
  }

  /** Stealing finds nothing exactly when no queued thread is eligible; otherwise it takes an eligible
      one, bound to the thief if there is one, else softly bound if there is one. */
  lemma StealRight(k: Kernel, q: seq<nat>, c: nat)
    requires c < |k.cpus| && Threads(k, q)
    ensures StealChoice(k, q, c).None? <==> forall i | 0 <= i < |q| :: !Eligible(k, c, q[i])
    ensures var r := StealChoice(k, q, c);
      r.Some? ==>
        && r.value in q && r.value < |k.threads| && Eligible(k, c, r.value)
        && ((exists i :: 0 <= i < |q| && Matches(k, c, q[i], 1)) ==> k.threads[r.value].affinity == Some(c))
        && ((forall i | 0 <= i < |q| :: !Matches(k, c, q[i], 1)) && (exists i :: 0 <= i < |q| && Matches(k, c, q[i], 2))
            ==> !k.threads[r.value].hard)
  {
    forall i | 0 <= i < |q| ensures Eligible(k, c, q[i]) ==> Matches(k, c, q[i], 2) || Matches(k, c, q[i], 3) {
    }
  }

  /** Move a queued thread from CPU `v` to CPU `c`. */
  function Move(k: Kernel, v: nat, c: nat, t: nat): Kernel
    requires v < |k.cpus| && c < |k.cpus| && t < |k.threads|
  {
    Enqueue(SetCpu(k, v, k.cpus[v].(queue := Drop(k.cpus[v].queue, t))), c, t)
  }

  lemma MoveKeeps(k: Kernel, v: nat, c: nat, t: nat)
    requires Inv(k) && v < |k.cpus| && c < |k.cpus| && t < |k.threads|
    requires k.threads[t].at == InQueue(v) && !k.threads[t].idle
    ensures Inv(Move(k, v, c, t))
  {
    var k' := Move(k, v, c, t);
    assert CpuOk(k, v) && CpuOk(k, c) && ThreadOk(k, t);
    DropMembers(k.cpus[v].queue, t);
    forall d: nat | d < |k.cpus| ensures CpuOk(k', d) {
      assert CpuOk(k, d);
    }
    forall w: nat | w < |k.waits| ensures WaitOk(k', w) {
      assert WaitOk(k, w);
    }
    forall u: nat | u < |k.threads| ensures ThreadOk(k', u) {
      assert ThreadOk(k, u);
    }
  }

  lemma QueueThreads(k: Kernel, v: nat)
    requires Inv(k) && v < |k.cpus|
    ensures Threads(k, k.cpus[v].queue)
    ensures forall t | t in k.cpus[v].queue :: t < |k.threads| && k.threads[t].at == InQueue(v)
  {
    assert CpuOk(k, v);
    forall i | 0 <= i < |k.cpus[v].queue| ensures k.cpus[v].queue[i] < |k.threads| {
      assert k.cpus[v].queue[i] in k.cpus[v].queue;
    }
  }

  /** One turn of the idle loop of `c`, with victim `v`: steal, enqueue here, reschedule. */
  function AfterBalance(k: Kernel, c: nat, v: nat): Kernel
    requires Inv(k) && c < |k.cpus| && v < |k.cpus|
  {
    QueueThreads(k, v);
    StealRight(k, k.cpus[v].queue, c);
    match StealChoice(k, k.cpus[v].queue, c)
    case None => Reschedule(k, c)
    case Some(t) => MoveKeeps(k, v, c, t); Reschedule(Move(k, v, c, t), c)
  }

  lemma StartKeeps(k: Kernel, c: nat, t: nat)
    requires Inv(k) && c < |k.cpus| && t < |k.threads| && k.threads[t].at == Nowhere && k.threads[t].state == Ready
    ensures Inv(Enqueue(k, c, t))
  {
    var k' := Enqueue(k, c, t);
    assert CpuOk(k, c) && ThreadOk(k, t);
    forall d: nat | d < |k.cpus| ensures CpuOk(k', d) {
      assert CpuOk(k, d);
    }
    forall w: nat | w < |k.waits| ensures WaitOk(k', w) {
      assert WaitOk(k, w);
    }
    forall u: nat | u < |k.threads| ensures ThreadOk(k', u) {
      assert ThreadOk(k, u);
    }
  }

  /** current::insert falls through after inserting a bound thread, and so links it into the queue twice. */
  function AfterInsert(k: Kernel, c: nat, t: nat): Outcome
    requires c < |k.cpus| && t < |k.threads|
  {
    match k.threads[t].affinity
    case None => Next(Enqueue(k, c, t))
    case Some(a) => if a == c then Broken else Panic
  }

  /** Inserting a new thread is right exactly when it is bound to no CPU. */
  lemma InsertExact(k: Kernel, c: nat, t: nat)
    requires Inv(k) && c < |k.cpus| && t < |k.threads| && k.threads[t].at == Nowhere && k.threads[t].state == Ready
    ensures (AfterInsert(k, c, t).Next? && Inv(AfterInsert(k, c, t).k)) <==> k.threads[t].affinity == None
    ensures AfterInsert(k, c, t) == Broken <==> k.threads[t].affinity == Some(c)
  {
    StartKeeps(k, c, t);
  }

  /** Why the outcome for a thread bound to this CPU is `Broken`. Let the links of the run queue, headed at `h`,
      be a ring of the threads queued: the two pushes leave no ring there, of whatever threads, so that no
      state describes the queue. A thread bound to no CPU is pushed once, and the ring is that of the next
      state. */
  lemma BoundThreadBreaks(k: Kernel, c: nat, t: nat, m: Rings.Memory, h: nat)
    requires Inv(k) && c < |k.cpus| && t < |k.threads| && k.threads[t].at == Nowhere && k.threads[t].state == Ready
    requires Rings.Ring(m, h, k.cpus[c].queue) && t in m && |k.threads| <= h
    ensures h in m && m[h].prev in m
    ensures var m1 := Rings.AddTail(m, t, h);
      && m1[h].prev in m1
      && (k.threads[t].affinity == None ==> Rings.Ring(m1, h, AfterInsert(k, c, t).k.cpus[c].queue))
      && (k.threads[t].affinity == Some(c) ==> forall r :: !Rings.Ring(Rings.AddTail(m1, t, h), h, r))
  {
    assert CpuOk(k, c) && t !in k.cpus[c].queue;
    Rings.AddLast(m, h, k.cpus[c].queue, t);
    Rings.AddTwice(m, h, k.cpus[c].queue, t);
  }

  /** The push half of load balancing, in tick: from the busiest CPU to the least busy one. Enqueuing
      asserts that it runs on the CPU it enqueues for. */
  function AfterTick(k: Kernel, c: nat, busy: nat, free: nat): Outcome
    requires Inv(k) && c < |k.cpus| && busy < |k.cpus| && free < |k.cpus|
  {
    if |k.cpus[busy].queue| <= |k.cpus[free].queue| + 1 then Next(k)
    else
      QueueThreads(k, busy);
      StealRight(k, k.cpus[busy].queue, c);
      match StealChoice(k, k.cpus[busy].queue, c)
      case None => Next(k)
      case Some(t) => if free == c then Next(Move(k, busy, c, t)) else Panic
  }

  // ----- runs

  datatype Event =
    | Start(t: nat)
    | Yield
    | Block(w: nat, reader: bool)
    | WakeOne(w: nat, reschedule: bool, code: int)
    | WakeAll(w: nat, reschedule: bool, code: int)
    | TimeOut(t: nat, code: int)
    | Exit(w: nat, code: int)
    | Balance(victim: nat)
    | Tick(busy: nat, free: nat)

  predicate MayLeave(k: Kernel, c: nat) {
    && c < |k.cpus| && k.cpus[c].current < |k.threads|
    && k.threads[k.cpus[c].current].state == Running && !k.threads[k.cpus[c].current].idle
  }

  /** What callers on CPU `c` keep to: they start new threads, bound to no CPU, and only a running thread
      that is not idle blocks or exits. */
  predicate Allowed(k: Kernel, c: nat, e: Event) {
    && c < |k.cpus|
    && match e
       case Start(t) =>
         && t < |k.threads| && k.threads[t].at == Nowhere && k.threads[t].state == Ready
         && k.threads[t].affinity == None
       case Yield => true
       case Block(w, _) => w < |k.waits| && MayLeave(k, c)
       case WakeOne(w, _, _) => w < |k.waits|
       case WakeAll(w, _, _) => w < |k.waits|
       case TimeOut(t, _) => t < |k.threads| && k.threads[t].at.Waiting?
       case Exit(w, _) => w < |k.waits| && MayLeave(k, c)
       case Balance(v) => v < |k.cpus|
       case Tick(busy, free) => busy < |k.cpus| && free < |k.cpus|
  }

  function Do(k: Kernel, c: nat, e: Event): Outcome
    requires Inv(k) && Allowed(k, c, e)
  {
    match e
    case Start(t) => AfterInsert(k, c, t)
    case Yield => Next(Reschedule(k, c))
    case Block(w, reader) => Next(AfterBlock(k, c, w, reader))
    case WakeOne(w, reschedule, code) => AfterWakeOne(k, c, w, reschedule, code)
    case WakeAll(w, reschedule, code) => AfterWakeAll(k, c, w, reschedule, code)
    case TimeOut(t, code) => AfterTimeOut(k, c, t, code)
    case Exit(w, code) => AfterExit(k, c, w, code)
    case Balance(v) => Next(AfterBalance(k, c, v))
    case Tick(busy, free) => AfterTick(k, c, busy, free)
  }

  lemma StepKeeps(k: Kernel, c: nat, e: Event)
    requires Inv(k) && Allowed(k, c, e) && Do(k, c, e).Next?
    ensures Inv(Do(k, c, e).k)
  {
    match e
    case Start(t) => StartKeeps(k, c, t);
    case Yield => RescheduleKeeps(k, c);
    case Block(w, reader) =>
      ParkBetween(k, c, w, reader);
      PickNextKeeps(Park(k, c, w, reader), c);
    case WakeOne(w, reschedule, code) =>
      if k.waits[w] != [] {
        var t := k.waits[w][0];
        assert WaitOk(k, w) && t in k.waits[w];
        WakeKeeps(k, c, w, t, code);
        RescheduleKeeps(Wake(k, c, w, t, code), c);
      }
    case WakeAll(w, reschedule, code) =>
      if k.waits[w] != [] {
        RescheduleKeeps(WakeEach(k, c, w, code).k, c);
      }
    case TimeOut(t, code) =>
      assert ThreadOk(k, t);
      var w := k.threads[t].at.queue;
      WakeKeeps(k, c, w, t, code);
      RescheduleKeeps(Wake(k, c, w, t, code), c);
    case Exit(w, code) => DyingKeeps(k, c);
    case Balance(v) => BalanceKeeps(k, c, v);
    case Tick(busy, free) =>
      QueueThreads(k, busy);
      StealRight(k, k.cpus[busy].queue, c);
      match StealChoice(k, k.cpus[busy].queue, c) {
        case None =>
        case Some(t) => MoveKeeps(k, busy, c, t);
      }
  }

  lemma BalanceKeeps(k: Kernel, c: nat, v: nat)
    requires Inv(k) && c < |k.cpus| && v < |k.cpus|
    ensures Inv(AfterBalance(k, c, v))
  {
    QueueThreads(k, v);
    StealRight(k, k.cpus[v].queue, c);
    match StealChoice(k, k.cpus[v].queue, c)
    case None => RescheduleKeeps(k, c);
    case Some(t) =>
      MoveKeeps(k, v, c, t);
      RescheduleKeeps(Move(k, v, c, t), c);
  }
}
