/** What each step of the scheduler does, in threads, queues and slots: who moves where, with which code, and
    what stays as it was. */
module SchedulerSteps {
  import opened Scheduler
  import opened Prelude

  // ----- serving the line

  /** The line of CPU `c`: its queue, and behind it the current thread unless that is dying. */
  function Line(k: Kernel, c: nat): seq<nat>
    requires c < |k.cpus| && k.cpus[c].current < |k.threads|
  {
    k.cpus[c].queue + if k.threads[k.cpus[c].current].state == Dying then [] else [k.cpus[c].current]
  }

  /** A thread after its CPU has been rescheduled: the front of the line runs, except that an idle thread that
      is chosen again stays ready; the thread that was current is ready in the queue, or dead and gone. */
  function ServedThread(th: Thread, c: nat, front: bool, current: bool): Thread {
    if front then th.(at := OnCpu(c), state := if current then Ready else Running)
    else if current then
      if th.state == Dying then th.(at := Nowhere) else th.(at := InQueue(c), state := Ready)
    else th
  }

  /** From `k` to `k'` CPU `c` has been rescheduled. */
  ghost predicate Served(k: Kernel, k': Kernel, c: nat) {
    && c < |k.cpus| && k.cpus[c].current < |k.threads| && |k'.threads| == |k.threads|
    && var line := Line(k, c);
       && line != []
       && k'.waits == k.waits
       && k'.cpus == k.cpus[c := k.cpus[c].(current := line[0], queue := line[1..])]
       && forall t | 0 <= t < |k.threads| ::
            k'.threads[t] == ServedThread(k.threads[t], c, t == line[0], t == k.cpus[c].current)
  }

  lemma RescheduleServes(k: Kernel, c: nat)
    requires Inv(k) && c < |k.cpus|
    ensures Served(k, Reschedule(k, c), c)
  {
    assert CpuOk(k, c);
    assert ThreadOk(k, k.cpus[c].current);
    GiveUpBetween(k, c);
    PickNextFacts(GiveUp(k, c), c);
    assert GiveUp(k, c).cpus[c].queue == Line(k, c);
  }

  lemma YieldSteps(k: Kernel, c: nat)
    requires Inv(k) && c < |k.cpus|
    ensures Do(k, c, Yield).Next? && Served(k, Do(k, c, Yield).k, c)
  {
    RescheduleServes(k, c);
  }

  /** Rescheduled, or left as it is. */
  ghost predicate ServedIf(k: Kernel, k': Kernel, c: nat, yes: bool) {
    if yes then Served(k, k', c) else k' == k
  }

  lemma RescheduleIfServes(k: Kernel, c: nat, yes: bool)
    requires Inv(k) && c < |k.cpus|
    ensures ServedIf(k, RescheduleIf(k, c, yes), c, yes)
  {
    if yes {
      RescheduleServes(k, c);
    }
  }

  // ----- waking

  function WokenThread(th: Thread, c: nat, code: int): Thread {
    th.(state := Ready, blockCode := code, blockingOn := None, at := InQueue(c))
  }

  /** The thread at place `i` of wait queue `w` has gone to the back of the run queue of `c` with the code, and
      nothing else has changed. */
  ghost predicate Awakened(k: Kernel, k': Kernel, c: nat, w: nat, i: nat, code: int) {
    && c < |k.cpus| && w < |k.waits| && i < |k.waits[w]| && k.waits[w][i] < |k.threads|
    && var t := k.waits[w][i];
       && k'.threads == k.threads[t := WokenThread(k.threads[t], c, code)]
       && k'.cpus == k.cpus[c := k.cpus[c].(queue := k.cpus[c].queue + [t])]
       && k'.waits == k.waits[w := k.waits[w][..i] + k.waits[w][i + 1..]]
  }

  lemma WakeAwakens(k: Kernel, c: nat, w: nat, t: nat, code: int) returns (i: nat)
    requires Inv(k) && c < |k.cpus| && w < |k.waits| && t < |k.threads| && k.threads[t].at == Waiting(w)
    ensures i < |k.waits[w]| && k.waits[w][i] == t && Awakened(k, Wake(k, c, w, t, code), c, w, i, code)
    ensures Inv(Wake(k, c, w, t, code))
  {
    assert WaitOk(k, w);
    WakeKeeps(k, c, w, t, code);
    i := DropSplit(k.waits[w], t);
  }

  /** A thread may be woken here: it is bound to no CPU, or to this one. */
  predicate Local(th: Thread, c: nat) {
    th.affinity == None || th.affinity == Some(c)
  }

  /** wake_one: nothing if nobody waits. Otherwise the longest waiter is woken with the code, or the kernel stops
      exactly if it is bound to another CPU; the CPU is rescheduled exactly if that was asked for and the thread
      is bound to it. */
  lemma WakeOneSteps(k: Kernel, c: nat, w: nat, reschedule: bool, code: int) returns (mid: Kernel)
    requires Inv(k) && c < |k.cpus| && w < |k.waits|
    ensures k.waits[w] == [] ==> Do(k, c, WakeOne(w, reschedule, code)) == Next(k)
    ensures k.waits[w] != [] ==>
      && k.waits[w][0] < |k.threads|
      && var th, r := k.threads[k.waits[w][0]], Do(k, c, WakeOne(w, reschedule, code));
         if Local(th, c) then
           r.Next? && Awakened(k, mid, c, w, 0, code) && ServedIf(mid, r.k, c, reschedule && th.affinity == Some(c))
         else r == Panic
  {
    mid := k;
    if k.waits[w] != [] {
      var t := k.waits[w][0];
      assert WaitOk(k, w) && t in k.waits[w];
      if Local(k.threads[t], c) {
        mid := Wake(k, c, w, t, code);
        var i := WakeAwakens(k, c, w, t, code);
        assert i == 0;
        RescheduleIfServes(mid, c, reschedule && k.threads[t].affinity == Some(c));
      }
    }
  }

  /** A time-out: a reader stays where it is. Any other waiting thread leaves its wait queue, wherever in it, and is
      ready with the code, or the kernel stops exactly if it is bound to another CPU; the CPU is rescheduled
      exactly if the thread is bound to it. */
  lemma TimeOutSteps(k: Kernel, c: nat, t: nat, code: int) returns (mid: Kernel, i: nat)
    requires Inv(k) && c < |k.cpus| && t < |k.threads| && k.threads[t].at.Waiting?
    ensures var th, r := k.threads[t], Do(k, c, TimeOut(t, code));
      && th.at.queue < |k.waits|
      && if th.state == BlockedReadLock then r == Next(k)
         else if Local(th, c) then
           && r.Next? && i < |k.waits[th.at.queue]| && k.waits[th.at.queue][i] == t
           && Awakened(k, mid, c, th.at.queue, i, code) && ServedIf(mid, r.k, c, th.affinity == Some(c))
         else r == Panic
  {
    assert ThreadOk(k, t);
    mid, i := k, 0;
    var th := k.threads[t];
    if th.state != BlockedReadLock && Local(th, c) {
      mid := Wake(k, c, th.at.queue, t, code);
      i := WakeAwakens(k, c, th.at.queue, t, code);
      RescheduleIfServes(mid, c, th.affinity == Some(c));
    }
  }

  /** All waiters of `w` have gone to the back of the run queue of `c`, in their order and with the code, and
      nothing else has changed. */
  ghost predicate AllAwakened(k: Kernel, k': Kernel, c: nat, w: nat, code: int) {
    && c < |k.cpus| && w < |k.waits| && |k'.threads| == |k.threads|
    && k'.waits == k.waits[w := []]
    && k'.cpus == k.cpus[c := k.cpus[c].(queue := k.cpus[c].queue + k.waits[w])]
    && forall t | 0 <= t < |k.threads| ::
         k'.threads[t] == if t in k.waits[w] then WokenThread(k.threads[t], c, code) else k.threads[t]
  }

  predicate AllLocal(k: Kernel, c: nat, w: nat)
    requires w < |k.waits|
  {
    forall i | 0 <= i < |k.waits[w]| :: k.waits[w][i] < |k.threads| && Local(k.threads[k.waits[w][i]], c)
  }

  lemma {:induction false} WakeEachSteps(k: Kernel, c: nat, w: nat, code: int)
    requires Inv(k) && c < |k.cpus| && w < |k.waits|
    ensures var r := WakeEach(k, c, w, code);
      if AllLocal(k, c, w) then r.Next? && AllAwakened(k, r.k, c, w, code) else r == Panic
    decreases |k.waits[w]|
  {
    var q := k.waits[w];
    assert WaitOk(k, w);
    if q == [] {
      assert k.cpus[c].queue + q == k.cpus[c].queue && k.cpus[c := k.cpus[c]] == k.cpus && k.waits[w := []] == k.waits;
    } else {
      var t := q[0];
      assert t in q;
      if Local(k.threads[t], c) {
        var mid := Wake(k, c, w, t, code);
        var i := WakeAwakens(k, c, w, t, code);
        assert i == 0 && mid.waits[w] == q[1..];
        WakeEachSteps(mid, c, w, code);
        TailMembers(q);
        LocalRest(k, mid, c, w, code);
        if AllLocal(k, c, w) {
          OneThenAll(k, mid, WakeEach(mid, c, w, code).k, c, w, code);
        }
      }
    }
  }

  lemma LocalRest(k: Kernel, mid: Kernel, c: nat, w: nat, code: int)
    requires Awakened(k, mid, c, w, 0, code) && Distinct(k.waits[w])
    ensures w < |mid.waits| && (AllLocal(k, c, w) <==> AllLocal(mid, c, w) && Local(k.threads[k.waits[w][0]], c))
  {
    var q, r := k.waits[w], mid.waits[w];
    assert r == q[1..];
    if AllLocal(mid, c, w) && Local(k.threads[q[0]], c) {
      forall i | 0 <= i < |q| ensures q[i] < |k.threads| && Local(k.threads[q[i]], c) {
        assert i > 0 ==> r[i - 1] == q[i];
      }
    }
    if AllLocal(k, c, w) {
      forall i | 0 <= i < |r| ensures r[i] < |mid.threads| && Local(mid.threads[r[i]], c) {
        assert r[i] == q[i + 1];
      }
    }
  }

  lemma OneThenAll(k: Kernel, mid: Kernel, k': Kernel, c: nat, w: nat, code: int)
    requires Awakened(k, mid, c, w, 0, code) && AllAwakened(mid, k', c, w, code) && Distinct(k.waits[w])
    ensures AllAwakened(k, k', c, w, code)
  {
    var q := k.waits[w];
    TailMembers(q);
    assert mid.waits[w] == q[1..];
    assert k'.waits == k.waits[w := []];
    assert k'.cpus == k.cpus[c := k.cpus[c].(queue := k.cpus[c].queue + q)] by {
      assert k.cpus[c].queue + [q[0]] + q[1..] == k.cpus[c].queue + q;
    }
    forall t | 0 <= t < |k.threads|
      ensures k'.threads[t] == if t in q then WokenThread(k.threads[t], c, code) else k.threads[t]
    {
      assert t in q <==> t == q[0] || t in q[1..];
    }
    hide Distinct;
  }

  /** wake_all: nothing if nobody waits. Otherwise all are woken in order with the code, or the kernel stops
      exactly if one of them is bound to another CPU; then the CPU is rescheduled if that was asked for. */
  lemma WakeAllSteps(k: Kernel, c: nat, w: nat, reschedule: bool, code: int) returns (mid: Kernel)
    requires Inv(k) && c < |k.cpus| && w < |k.waits|
    ensures k.waits[w] == [] ==> Do(k, c, WakeAll(w, reschedule, code)) == Next(k)
    ensures k.waits[w] != [] ==>
      var r := Do(k, c, WakeAll(w, reschedule, code));
      if AllLocal(k, c, w) then r.Next? && AllAwakened(k, mid, c, w, code) && ServedIf(mid, r.k, c, reschedule)
      else r == Panic
  {
    mid := k;
    WakeEachSteps(k, c, w, code);
    if AllLocal(k, c, w) {
      mid := WakeEach(k, c, w, code).k;
      RescheduleIfServes(mid, c, reschedule);
    }
  }

  /** exit, up to its reschedule: the current thread is dying, and all who joined it are woken with its code. */
  lemma ExitSteps(k: Kernel, c: nat, w: nat, code: int) returns (mid: Kernel)
    requires Inv(k) && w < |k.waits| && MayLeave(k, c)
    ensures var cur := k.cpus[c].current;
      mid == k.(threads := k.threads[cur := k.threads[cur].(state := Dying)])
    ensures var r := Do(k, c, Exit(w, code));
      if AllLocal(k, c, w) then r.Next? && AllAwakened(mid, r.k, c, w, code) else r == Panic
  {
    mid := MarkDying(k, c);
    DyingKeeps(k, c);
    WakeEachSteps(mid, c, w, code);
    assert forall t | 0 <= t < |k.threads| :: mid.threads[t].affinity == k.threads[t].affinity;
    assert AllLocal(mid, c, w) <==> AllLocal(k, c, w);
  }

  // ----- blocking

  /** A thread that blocks goes behind those that wait already, with what it waits for and no code yet, and the
      front of the run queue runs. */
  lemma BlockSteps(k: Kernel, c: nat, w: nat, reader: bool) returns (next: nat)
    requires Inv(k) && w < |k.waits| && MayLeave(k, c)
    ensures Do(k, c, Block(w, reader)).Next?
    ensures var cur, k' := k.cpus[c].current, Do(k, c, Block(w, reader)).k;
      && k.cpus[c].queue != [] && next == k.cpus[c].queue[0] && next < |k.threads| && next != cur
      && k'.waits == k.waits[w := k.waits[w] + [cur]]
      && k'.cpus == k.cpus[c := k.cpus[c].(current := next, queue := k.cpus[c].queue[1..])]
      && k'.threads == k.threads[cur := k.threads[cur].(
                         state := if reader then BlockedReadLock else Blocked,
                         blockingOn := Some(w), blockCode := 0, at := Waiting(w))]
                       [next := k.threads[next].(state := Running, at := OnCpu(c))]
  {
    ParkBetween(k, c, w, reader);
    var k1 := Park(k, c, w, reader);
    PickNextFacts(k1, c);
    next := k1.cpus[c].queue[0];
    assert CpuOk(k, c);
    assert k.cpus[c].current !in k.cpus[c].queue;
  }

  // ----- starting

  /** A new thread that is bound to no CPU goes to the back of the run queue. */
  lemma StartSteps(k: Kernel, c: nat, t: nat)
    requires Inv(k) && c < |k.cpus| && t < |k.threads| && k.threads[t].at == Nowhere && k.threads[t].state == Ready
    requires k.threads[t].affinity == None
    ensures Do(k, c, Start(t)) ==
      Next(k.(threads := k.threads[t := k.threads[t].(at := InQueue(c))],
              cpus := k.cpus[c := k.cpus[c].(queue := k.cpus[c].queue + [t])]))
  {
  }

  // ----- stealing

  /** A queued thread may be taken unless it is an idle or an initial one: that it is ready and not current follows
      from where it stands. */
  predicate Takeable(k: Kernel, t: nat)
    requires t < |k.threads|
  {
    !k.threads[t].idle && !k.threads[t].init
  }

  lemma TakeableIs(k: Kernel, c: nat, v: nat, t: nat)
    requires Inv(k) && c < |k.cpus| && v < |k.cpus| && t in k.cpus[v].queue
    ensures t < |k.threads| && (Takeable(k, t) <==> Eligible(k, c, t))
  {
    assert CpuOk(k, v) && CpuOk(k, c);
    assert ThreadOk(k, t);
  }

  predicate Mine(k: Kernel, c: nat, t: nat)
    requires t < |k.threads|
  {
    Takeable(k, t) && k.threads[t].affinity == Some(c)
  }

  predicate Soft(k: Kernel, t: nat)
    requires t < |k.threads|
  {
    Takeable(k, t) && !k.threads[t].hard
  }

  /** Place `i` of a queue is the one to steal: the last thread bound to the thief, else the last that is softly
      bound, else the last that may be taken at all. */
  ghost predicate Preferred(k: Kernel, q: seq<nat>, c: nat, i: nat) {
    && Threads(k, q) && i < |q| && Takeable(k, q[i])
    && if exists j | 0 <= j < |q| :: Mine(k, c, q[j]) then
         Mine(k, c, q[i]) && forall j | i < j < |q| :: !Mine(k, c, q[j])
       else if exists j | 0 <= j < |q| :: Soft(k, q[j]) then
         Soft(k, q[i]) && forall j | i < j < |q| :: !Soft(k, q[j])
       else forall j | i < j < |q| :: !Takeable(k, q[j])
  }

  predicate NoneTakeable(k: Kernel, q: seq<nat>) {
    Threads(k, q) && forall i | 0 <= i < |q| :: !Takeable(k, q[i])
  }

  lemma {:induction false} LastMatchAt(k: Kernel, q: seq<nat>, c: nat, pass: nat) returns (i: nat)
    requires c < |k.cpus| && Threads(k, q) && LastMatch(k, q, c, pass).Some?
    ensures i < |q| && q[i] == LastMatch(k, q, c, pass).value && Matches(k, c, q[i], pass)
    ensures forall j | i < j < |q| :: !Matches(k, c, q[j], pass)
  {
    var n := |q| - 1;
    if Matches(k, c, q[n], pass) {
      i := n;
    } else {
      i := LastMatchAt(k, q[..n], c, pass);
    }
  }

  lemma StealPrefers(k: Kernel, v: nat, c: nat) returns (i: nat)
    requires Inv(k) && c < |k.cpus| && v < |k.cpus|
    ensures var q := k.cpus[v].queue;
      && Threads(k, q)
      && (StealChoice(k, q, c).None? <==> NoneTakeable(k, q))
      && (StealChoice(k, q, c).Some? ==> Preferred(k, q, c, i) && StealChoice(k, q, c) == Some(q[i]))
  {
    i := 0;
    var q := k.cpus[v].queue;
    QueueThreads(k, v);
    StealRight(k, q, c);
    forall j | 0 <= j < |q|
      ensures Takeable(k, q[j]) == Eligible(k, c, q[j]) == (Matches(k, c, q[j], 2) || Matches(k, c, q[j], 3))
      ensures Mine(k, c, q[j]) == Matches(k, c, q[j], 1) && Soft(k, q[j]) == Matches(k, c, q[j], 2)
    {
      TakeableIs(k, c, v, q[j]);
    }
    hide Inv, Eligible, Matches, Takeable, Mine, Soft;
    if LastMatch(k, q, c, 1).Some? {
      i := LastMatchAt(k, q, c, 1);
      assert Mine(k, c, q[i]);
    } else if LastMatch(k, q, c, 2).Some? {
      i := LastMatchAt(k, q, c, 2);
      assert Soft(k, q[i]);
    } else if LastMatch(k, q, c, 3).Some? {
      i := LastMatchAt(k, q, c, 3);
    }
  }

  /** The thread at place `i` of the queue of `v` has gone to the back of the queue of `c`, and nothing else has
      changed. */
  ghost predicate Stolen(k: Kernel, k': Kernel, c: nat, v: nat, i: nat) {
    && c < |k.cpus| && v < |k.cpus| && i < |k.cpus[v].queue| && k.cpus[v].queue[i] < |k.threads|
    && var q, t := k.cpus[v].queue, k.cpus[v].queue[i];
       var left := k.cpus[v := k.cpus[v].(queue := q[..i] + q[i + 1..])];
       && k'.cpus == left[c := left[c].(queue := left[c].queue + [t])]
       && k'.threads == k.threads[t := k.threads[t].(at := InQueue(c))]
       && k'.waits == k.waits
  }

  lemma MoveSteals(k: Kernel, c: nat, v: nat, i: nat)
    requires Inv(k) && c < |k.cpus| && v < |k.cpus| && i < |k.cpus[v].queue| && k.cpus[v].queue[i] < |k.threads|
    ensures Stolen(k, Move(k, v, c, k.cpus[v].queue[i]), c, v, i)
  {
    assert CpuOk(k, v);
    var q, t := k.cpus[v].queue, k.cpus[v].queue[i];
    assert t in q;
    assert ThreadOk(k, t);
    var j := DropSplit(q, t);
    assert j == i;
  }

  /** One turn of balancing on `c` with victim `v`: if no thread in the queue of `v` may be taken, `c` is only
      rescheduled; otherwise the preferred one first goes behind the queue of `c`. */
  ghost predicate Balanced(k: Kernel, k': Kernel, c: nat, v: nat) {
    && c < |k.cpus| && v < |k.cpus|
    && (NoneTakeable(k, k.cpus[v].queue) ==> Served(k, k', c))
    && (!NoneTakeable(k, k.cpus[v].queue) ==>
          exists mid: Kernel, i: nat ::
            Preferred(k, k.cpus[v].queue, c, i) && Stolen(k, mid, c, v, i) && Served(mid, k', c))
  }

  lemma BalanceSteps(k: Kernel, c: nat, v: nat)
    requires Inv(k) && c < |k.cpus| && v < |k.cpus|
    ensures Do(k, c, Balance(v)).Next? && Balanced(k, Do(k, c, Balance(v)).k, c, v)
  {
    AfterBalanceSteps(k, c, v);
    hide AfterBalance, Balanced;
  }

  lemma AfterBalanceSteps(k: Kernel, c: nat, v: nat)
    requires Inv(k) && c < |k.cpus| && v < |k.cpus|
    ensures Balanced(k, AfterBalance(k, c, v), c, v)
  {
    QueueThreads(k, v);
    var q := k.cpus[v].queue;
    StealRight(k, q, c);
    var i := StealPrefers(k, v, c);
    if StealChoice(k, q, c).None? {
      RescheduleServes(k, c);
    } else {
      var mid := Move(k, v, c, q[i]);
      MoveSteals(k, c, v, i);
      assert q[i] in q;
      MoveKeeps(k, v, c, q[i]);
      RescheduleServes(mid, c);
    }
  }

  /** The push half: only if the longest queue exceeds the shortest by two does the preferred thread leave it, for
      the queue of this CPU; the kernel stops exactly if it would go to another one. */
  lemma TickSteps(k: Kernel, c: nat, busy: nat, free: nat) returns (i: nat)
    requires Inv(k) && c < |k.cpus| && busy < |k.cpus| && free < |k.cpus|
    ensures var r, q := Do(k, c, Tick(busy, free)), k.cpus[busy].queue;
      if |q| < |k.cpus[free].queue| + 2 || NoneTakeable(k, q) then r == Next(k)
      else if free == c then r.Next? && Preferred(k, q, c, i) && Stolen(k, r.k, c, busy, i)
      else r == Panic
  {
    QueueThreads(k, busy);
    var q := k.cpus[busy].queue;
    StealRight(k, q, c);
    i := StealPrefers(k, busy, c);
    if StealChoice(k, q, c).Some? {
      MoveSteals(k, c, busy, i);
    }
  }
}
