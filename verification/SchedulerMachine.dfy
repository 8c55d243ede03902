/** The scheduler's methods as they update the queues and threads in place. */
module SchedulerMachine {
  import opened Scheduler
  import opened SchedulerSteps
  import opened Prelude

  /** What wake_all does in one go: every waiter is ready, in order, at the back of the run queue. */
  function AllWoken(k: Kernel, c: nat, w: nat, code: int): Kernel
    requires c < |k.cpus| && w < |k.waits|
  {
    var q := k.waits[w];
    Kernel(seq(|k.threads|, i requires 0 <= i < |k.threads| =>
                 if i in q then Woken(k.threads[i], c, code) else k.threads[i]),
           k.cpus[c := k.cpus[c].(queue := k.cpus[c].queue + q)],
           k.waits[w := []])
  }

  function Woken(th: Thread, c: nat, code: int): Thread {
    th.(blockCode := code, blockingOn := None, state := Ready, at := InQueue(c))
  }

  /** Waking all at once is waking one after the other, and panics if one of them would. */
  lemma {:induction false} WakeAllIsEach(k: Kernel, c: nat, w: nat, code: int)
    requires Inv(k) && c < |k.cpus| && w < |k.waits|
    ensures Threads(k, k.waits[w])
    ensures WakeEach(k, c, w, code).Next? <==> forall t | t in k.waits[w] :: MayWakeHere(k.threads[t], c)
    ensures WakeEach(k, c, w, code).Next? ==> WakeEach(k, c, w, code).k == AllWoken(k, c, w, code)
    decreases |k.waits[w]|
  {
    assert WaitOk(k, w);
    var q := k.waits[w];
    forall i | 0 <= i < |q| ensures q[i] < |k.threads| {
      assert q[i] in q;
    }
    if q == [] {
      assert k.waits[w := []] == k.waits;
      assert k.cpus[c].queue + [] == k.cpus[c].queue;
      assert k.cpus[c := k.cpus[c]] == k.cpus;
      assert AllWoken(k, c, w, code).threads == k.threads;
    } else {
      var t := q[0];
      assert t in q && q == [t] + q[1..];
      TailMembers(q);
      if MayWakeHere(k.threads[t], c) {
        WakeKeeps(k, c, w, t, code);
        var k1 := Wake(k, c, w, t, code);
        assert k1.waits[w] == q[1..];
        WakeAllIsEach(k1, c, w, code);
        OneThenRest(k, c, w, code);
      }
    }
  }

  lemma OneThenRest(k: Kernel, c: nat, w: nat, code: int)
    requires Inv(k) && c < |k.cpus| && w < |k.waits| && k.waits[w] != [] && k.waits[w][0] < |k.threads|
    ensures AllWoken(Wake(k, c, w, k.waits[w][0], code), c, w, code) == AllWoken(k, c, w, code)
  {
    assert WaitOk(k, w);
    var q, t := k.waits[w], k.waits[w][0];
    var k1 := Wake(k, c, w, t, code);
    TailMembers(q);
    assert k1.waits[w] == q[1..];
    assert k.cpus[c].queue + [t] + q[1..] == k.cpus[c].queue + q;
    var a, b := AllWoken(k1, c, w, code), AllWoken(k, c, w, code);
    forall i | 0 <= i < |k.threads| ensures a.threads[i] == b.threads[i] {
    }
    assert a.threads == b.threads && a.cpus == b.cpus && a.waits == b.waits;
  }

  class Machine {
    var threads: seq<Thread>
    var cpus: seq<Cpu>
    var waits: seq<seq<nat>>

    function K(): Kernel
      reads this
    {
      Kernel(threads, cpus, waits)
    }

    /** reschedule_locked and schedule on CPU `c`. */
    method Reschedule(c: nat)
      requires Inv(K()) && c < |cpus|
      modifies this
      ensures K() == Scheduler.Reschedule(old(K()), c) && Inv(K())
      ensures Served(old(K()), K(), c)
    {
      RescheduleServes(K(), c);
      ghost var k := K();
      GiveUpBetween(k, c);
      RescheduleKeeps(k, c);
      assert CpuOk(k, c);
      var cur := cpus[c].current;
      assert ThreadOk(k, cur);
      if threads[cur].state == Running {
        threads := threads[cur := threads[cur].(state := Ready)];
      }
      if threads[cur].state == Ready {
        EnqueueHere(c, cur);
      } else {
        threads := threads[cur := threads[cur].(at := Nowhere)];
      }
      assert K() == GiveUp(k, c);
      Dispatch(c);
    }

    /** enqueue on the CPU it runs on. */
    method EnqueueHere(c: nat, t: nat)
      requires c < |cpus| && t < |threads|
      modifies this
      ensures K() == Enqueue(old(K()), c, t)
    {
      if threads[t].state == Dying {
        cpus := cpus[c := cpus[c].(zombies := cpus[c].zombies + [t])];
      } else {
        threads := threads[t := threads[t].(at := InQueue(c))];
        cpus := cpus[c := cpus[c].(queue := cpus[c].queue + [t])];
      }
    }

    /** fetch, the fall-back on the idle thread, and switch_to with its assertion. */
    method Dispatch(c: nat)
      requires Between(K(), c)
      modifies this
      ensures forall i | 0 <= i < |old(cpus[c].queue)| :: old(cpus[c].queue)[i] < |old(threads)|
      ensures K() == PickNext(old(K()), c) && Inv(K())
    {
      ghost var k := K();
      PickNextFacts(k, c);
      PickNextKeeps(k, c);
      var next := cpus[c].idle;
      if cpus[c].queue != [] {
        next := cpus[c].queue[0];
        cpus := cpus[c := cpus[c].(queue := cpus[c].queue[1..])];
      }
      if next != cpus[c].current {
        assert threads[next].state == Ready;
        threads := threads[next := threads[next].(state := Running)];
      }
      threads := threads[next := threads[next].(at := OnCpu(c))];
      cpus := cpus[c := cpus[c].(current := next)];
      assert cpus == PickNext(k, c).cpus;
    }

    /** block_etc, past its early returns. */
    method Block(c: nat, w: nat, reader: bool)
      requires Inv(K()) && w < |waits| && MayLeave(K(), c)
      modifies this
      ensures K() == AfterBlock(old(K()), c, w, reader) && Inv(K())
    {
      ghost var k := K();
      ParkBetween(k, c, w, reader);
      var cur := cpus[c].current;
      waits := waits[w := waits[w] + [cur]];
      threads := threads[cur := threads[cur].(
        state := if reader then BlockedReadLock else Blocked, blockingOn := Some(w), blockCode := 0, at := Waiting(w))];
      assert K() == Park(k, c, w, reader);
      Dispatch(c);
    }

    /** wake_all: first empty the wait queue into a list, then ready the list from its front. */
    method WakeAll(c: nat, w: nat, reschedule: bool, code: int) returns (ok: bool)
      requires Inv(K()) && c < |cpus| && w < |waits|
      modifies this
      ensures ok <==> AfterWakeAll(old(K()), c, w, reschedule, code).Next?
      ensures ok ==> K() == AfterWakeAll(old(K()), c, w, reschedule, code).k && Inv(K())
    {
      ghost var k := K();
      WakeAllIsEach(k, c, w, code);
      assert WaitOk(k, w);
      if waits[w] == [] {
        return true;
      }
      var list := DequeueAll(w, code);
      ok := ReadyAll(c, list);
      if !ok {
        assert exists t :: t in list && !MayWakeHere(k.threads[t], c);
        return;
      }
      assert threads == AllWoken(k, c, w, code).threads;
      assert K() == AllWoken(k, c, w, code);
      hide Served;
      if reschedule {
        Reschedule(c);
      }
    }

    method DequeueAll(w: nat, code: int) returns (list: seq<nat>)
      requires w < |waits| && Distinct(waits[w]) && Threads(K(), waits[w])
      modifies this
      ensures list == old(waits[w]) && cpus == old(cpus) && waits == old(waits)[w := []]
      ensures |threads| == |old(threads)|
      ensures forall i | 0 <= i < |threads| ::
        threads[i] == if i in list then old(threads)[i].(blockCode := code, blockingOn := None) else old(threads)[i]
    {
      list := [];
      while waits[w] != []
        invariant cpus == old(cpus) && |waits| == |old(waits)| && waits == old(waits)[w := waits[w]]
        invariant list + waits[w] == old(waits[w])
        invariant |threads| == |old(threads)|
        invariant forall i | 0 <= i < |threads| ::
          threads[i] == if i in list then old(threads)[i].(blockCode := code, blockingOn := None) else old(threads)[i]
        decreases |waits[w]|
      {
        var t := waits[w][0];
        assert old(waits[w])[|list|] == t;
        waits := waits[w := waits[w][1..]];
        threads := threads[t := threads[t].(blockCode := code, blockingOn := None)];
        list := list + [t];
      }
      assert list == old(waits[w]);
    }

    /** unblock_locked for a list; false is the failed assertion about a thread bound to another CPU. */
    method ReadyAll(c: nat, list: seq<nat>) returns (ok: bool)
      requires c < |cpus| && Distinct(list) && Threads(K(), list)
      modifies this
      ensures ok <==> forall t | t in list :: MayWakeHere(old(threads)[t], c)
      ensures ok ==>
        && |threads| == |old(threads)| && waits == old(waits)
        && cpus == old(cpus)[c := old(cpus)[c].(queue := old(cpus)[c].queue + list)]
        && forall i | 0 <= i < |threads| ::
          threads[i] == if i in list then old(threads)[i].(state := Ready, at := InQueue(c)) else old(threads)[i]
    {
      var n := 0;
      ghost var home := cpus[c];
      assert home.queue + list[..0] == home.queue;
      while n < |list|
        invariant 0 <= n <= |list| && |threads| == |old(threads)| && waits == old(waits)
        invariant |cpus| == |old(cpus)|
        invariant cpus == old(cpus)[c := home.(queue := home.queue + list[..n])]
        invariant forall i | 0 <= i < n :: MayWakeHere(old(threads)[list[i]], c)
        invariant forall i | 0 <= i < |threads| ::
          threads[i] == if i in list[..n] then old(threads)[i].(state := Ready, at := InQueue(c)) else old(threads)[i]
      {
        var t := list[n];
        assert t !in list[..n];
        if !MayWakeHere(threads[t], c) {
          assert t in list;
          return false;
        }
        threads := threads[t := threads[t].(state := Ready)];
        EnqueueHere(c, t);
        assert list[..n + 1] == list[..n] + [t];
        assert home.queue + list[..n + 1] == home.queue + list[..n] + [t];
        n := n + 1;
      }
      assert list[..n] == list;
      ok := true;
    }

    /** One pass of steal, from the back of the queue. */
    method Scan(c: nat, v: nat, pass: nat) returns (r: Option<nat>)
      requires c < |cpus| && v < |cpus| && Threads(K(), cpus[v].queue)
      ensures r == LastMatch(K(), cpus[v].queue, c, pass)
    {
      var q := cpus[v].queue;
      var n := |q|;
      assert q[..n] == q;
      while n > 0
        invariant 0 <= n <= |q|
        invariant LastMatch(K(), q, c, pass) == LastMatch(K(), q[..n], c, pass)
      {
        var t := q[n - 1];
        assert q[..n][..n - 1] == q[..n - 1];
        if Matches(K(), c, t, pass) {
          return Some(t);
        }
        n := n - 1;
      }
      r := None;
    }

    /** steal: three passes over the queue of CPU `v`, run on CPU `c`. */
    method Steal(c: nat, v: nat) returns (r: Option<nat>)
      requires Inv(K()) && c < |cpus| && v < |cpus|
      modifies this
      ensures Threads(old(K()), old(cpus)[v].queue)
      ensures r == StealChoice(old(K()), old(cpus)[v].queue, c)
      ensures threads == old(threads) && waits == old(waits)
      ensures cpus == if r.None? then old(cpus)
                      else old(cpus)[v := old(cpus)[v].(queue := Drop(old(cpus)[v].queue, r.value))]
    {
      QueueThreads(K(), v);
      if cpus[v].queue == [] {
        return None;
      }
      r := Scan(c, v, 1);
      if r.None? {
        r := Scan(c, v, 2);
      }
      if r.None? {
        r := Scan(c, v, 3);
      }
      if r.Some? {
        cpus := cpus[v := cpus[v].(queue := Drop(cpus[v].queue, r.value))];
      }
    }

    /** The idle loop's choice: the first CPU of the longest queue, counting CPU 0 and all but `c`. */
    method Busiest(c: nat) returns (v: nat)
      requires c < |cpus|
      ensures v < |cpus| && (v == 0 || v != c)
      ensures forall d | 0 <= d < |cpus| && (d == 0 || d != c) ::
        |cpus[d].queue| <= |cpus[v].queue| && (d < v ==> |cpus[d].queue| < |cpus[v].queue|)
    {
      v := 0;
      for i := 0 to |cpus|
        invariant v < |cpus| && (v == 0 || v != c) && (i == 0 ==> v == 0) && (i > 0 ==> v < i)
        invariant forall d | 0 <= d < |cpus| && (d < i || d == 0) && (d == 0 || d != c) ::
          |cpus[d].queue| <= |cpus[v].queue| && (d < v ==> |cpus[d].queue| < |cpus[v].queue|)
      {
        if |cpus[i].queue| > |cpus[v].queue| && i != c {
          v := i;
        }
      }
    }

    /** Steal from the queue of `v`, enqueue here, and reschedule. */
    method TakeFrom(c: nat, v: nat)
      requires Inv(K()) && c < |cpus| && v < |cpus|
      modifies this
      ensures K() == AfterBalance(old(K()), c, v) && Inv(K())
    {
      ghost var k := K();
      QueueThreads(k, v);
      StealRight(k, k.cpus[v].queue, c);
      var r := Steal(c, v);
      if r.Some? {
        EnqueueHere(c, r.value);
        MoveKeeps(k, v, c, r.value);
        assert K() == Move(k, v, c, r.value);
      }
      hide Served;
      Reschedule(c);
    }

    /** One turn of the idle loop, with the CPU it took from. */
    method Idle(c: nat) returns (v: nat)
      requires Inv(K()) && c < |cpus|
      modifies this
      ensures v < |old(cpus)| && K() == AfterBalance(old(K()), c, v) && Inv(K())
      ensures Balanced(old(K()), K(), c, v)
      ensures v == 0 || v != c
      ensures forall d | 0 <= d < |old(cpus)| && (d == 0 || d != c) ::
        && |old(cpus)[d].queue| <= |old(cpus)[v].queue|
        && (d < v ==> |old(cpus)[d].queue| < |old(cpus)[v].queue|)
    {
      v := Busiest(c);
      AfterBalanceSteps(K(), c, v);
      hide Balanced, AfterBalance, Inv;
      TakeFrom(c, v);
    }
  }
}
