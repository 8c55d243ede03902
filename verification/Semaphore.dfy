/** The kernel semaphore over its wait queue. */
module Semaphore {
  import opened Prelude

  /** `count_` and the threads blocked on the wait queue, front first. */
  datatype Sem = Sem(count: nat, waiters: seq<nat>)

  predicate Valid(s: Sem) {
    s.count == 0 || s.waiters == []
  }

  /** wait_locked: take a permit, or join the queue. */
  function Wait(s: Sem, t: nat): (Sem, bool) {
    if s.count > 0 then (s.(count := s.count - 1), true)
    else (s.(waiters := s.waiters + [t]), false)
  }

  /** signal_locked: hand the permit to the first waiter, or keep it. */
  function Signal(s: Sem): (Sem, Option<nat>) {
    if s.waiters == [] then (s.(count := s.count + 1), None)
    else (s.(waiters := s.waiters[1..]), Some(s.waiters[0]))
  }

  /** Leave the queue without a permit, wherever in it. */
  function Cancel(s: Sem, t: nat): Sem {
    s.(waiters := Drop(s.waiters, t))
  }

  // ----- the semaphore as the source updates it

  datatype WaitResult = Granted | Blocked | Timeout

  class KernelSemaphore {
    var count: nat
    var waiters: seq<nat>

    ghost function Value(): Sem
      reads this
    {
      Sem(count, waiters)
    }

    constructor (initial: nat)
      ensures Value() == Sem(initial, [])
    {
      count, waiters := initial, [];
    }

    /** wait_locked, on the path to block_etc. A deadline already past when a waiter would block ends
        the call with nothing changed; it does not matter when a permit is there. */
    method WaitLocked(t: nat, expired: bool) returns (r: WaitResult)
      requires Valid(Value())
      modifies this
      ensures Valid(Value())
      ensures r == Granted <==> old(count) > 0
      ensures r == Timeout <==> old(count) == 0 && expired
      ensures Value() == if r == Timeout then old(Value()) else Wait(old(Value()), t).0
      ensures r != Timeout ==> (r == Granted <==> Wait(old(Value()), t).1)
    {
      if count > 0 {
        count := count - 1;
        return Granted;
      }
      if expired {
        return Timeout;
      }
      waiters := waiters + [t];
      return Blocked;
    }

    /** signal_locked. */
    method SignalLocked() returns (woken: Option<nat>)
      requires Valid(Value())
      modifies this
      ensures Valid(Value())
      ensures (Value(), woken) == Signal(old(Value()))
    {
      if waiters == [] {
        count := count + 1;
        woken := None;
      } else {
        woken := Some(waiters[0]);
        waiters := waiters[1..];
      }
    }

    /** try_wait_locked. */
    method TryWaitLocked() returns (taken: bool)
      requires Valid(Value())
      modifies this
      ensures Valid(Value())
      ensures taken <==> old(count) > 0
      ensures waiters == old(waiters) && count == if taken then old(count) - 1 else old(count)
    {
      if count > 0 {
        count := count - 1;
        return true;
      }
      return false;
    }

    /** unblock_thread on a timeout: unlink the waiter. */
    method TimeoutWaiter(t: nat)
      requires Valid(Value()) && t in waiters
      modifies this
      ensures Valid(Value())
      ensures Value() == Cancel(old(Value()), t)
    {
      var i := 0;
      while waiters[i] != t
        invariant 0 <= i < |waiters| && t !in waiters[..i]
        decreases |waiters| - i
      {
        i := i + 1;
        assert t in waiters[i..];
      }
      DropAt(waiters, i);
      waiters := waiters[..i] + waiters[i + 1..];
    }
  }

  lemma {:induction false} DropAt(q: seq<nat>, i: nat)
    requires i < |q| && q[i] !in q[..i]
    ensures Drop(q, q[i]) == q[..i] + q[i + 1..]
  {
    if i > 0 {
      assert q[..i][0] == q[0];
      assert q[1..][..i - 1] == q[..i][1..];
      DropAt(q[1..], i - 1);
    }
  }

}

/** The law of the semaphore over every run: the k-th permit goes to the k-th caller that has not
    timed out. Callers are named by tickets, one per call. */
module SemaphoreRuns {
  import opened Semaphore
  import opened Prelude

  datatype Event = DoWait(t: nat) | DoTryWait(t: nat) | DoExpiredWait(t: nat) | DoSignal | DoTimeout(t: nat)

  /** A semaphore with its past: calls that may get a permit in order of arrival, permits given in
      order, calls that gave up, signals made. */
  datatype Run = Run(sem: Sem, arrivals: seq<nat>, grants: seq<nat>, gaveUp: set<nat>, signals: nat)

  function Start(initial: nat): Run {
    Run(Sem(initial, []), [], [], {}, 0)
  }

  /** Each call has its own ticket, and only a blocked call can time out. */
  predicate Enabled(r: Run, e: Event) {
    match e
    case DoWait(t) => t !in r.arrivals
    case DoTryWait(t) => t !in r.arrivals
    case DoExpiredWait(t) => t !in r.arrivals
    case DoSignal => true
    case DoTimeout(t) => t in r.sem.waiters
  }

  function Step(r: Run, e: Event): Run {
    match e
    case DoWait(t) =>
      var (s, now) := Wait(r.sem, t);
      r.(sem := s, arrivals := r.arrivals + [t], grants := if now then r.grants + [t] else r.grants)
    case DoTryWait(t) =>
      if r.sem.count > 0 then
        r.(sem := r.sem.(count := r.sem.count - 1), arrivals := r.arrivals + [t], grants := r.grants + [t])
      else r
    case DoExpiredWait(t) =>
      if r.sem.count > 0 then
        r.(sem := Wait(r.sem, t).0, arrivals := r.arrivals + [t], grants := r.grants + [t])
      else r
    case DoSignal =>
      var (s, woken) := Signal(r.sem);
      r.(sem := s, signals := r.signals + 1,
         grants := match woken case None => r.grants case Some(t) => r.grants + [t])
    case DoTimeout(t) =>
      r.(sem := Cancel(r.sem, t), gaveUp := r.gaveUp + {t})
  }

  predicate IsRun(initial: nat, events: seq<Event>) {
    events == [] ||
    (IsRun(initial, events[..|events| - 1]) &&
     Enabled(After(initial, events[..|events| - 1]), events[|events| - 1]))
  }

  function After(initial: nat, events: seq<Event>): Run {
    if events == [] then Start(initial)
    else Step(After(initial, events[..|events| - 1]), events[|events| - 1])
  }

  /** The arrivals that have not given up, in order. */
  function Live(arrivals: seq<nat>, gaveUp: set<nat>): seq<nat> {
    if arrivals == [] then []
    else
      var last := arrivals[|arrivals| - 1];
      var rest := Live(arrivals[..|arrivals| - 1], gaveUp);
      if last in gaveUp then rest else rest + [last]
  }

  /** What holds after every prefix of every run. */
  ghost predicate Inv(initial: nat, r: Run) {
    && Valid(r.sem)
    && initial + r.signals == r.sem.count + |r.grants|
    && r.grants + r.sem.waiters == Live(r.arrivals, r.gaveUp)
    && Distinct(r.arrivals)
    && (forall t | t in r.gaveUp :: t in r.arrivals)
  }

  lemma {:induction false} LiveMembers(arrivals: seq<nat>, gaveUp: set<nat>)
    requires Distinct(arrivals)
    ensures Distinct(Live(arrivals, gaveUp))
    ensures forall t :: t in Live(arrivals, gaveUp) <==> t in arrivals && t !in gaveUp
  {
    if arrivals != [] {
      var init, last := arrivals[..|arrivals| - 1], arrivals[|arrivals| - 1];
      LiveMembers(init, gaveUp);
      assert arrivals == init + [last];
    }
  }

  lemma LiveAppend(arrivals: seq<nat>, gaveUp: set<nat>, t: nat)
    requires t !in gaveUp
    ensures Live(arrivals + [t], gaveUp) == Live(arrivals, gaveUp) + [t]
  {
    assert (arrivals + [t])[..|arrivals|] == arrivals;
  }

  /** Giving up takes a ticket out of the live arrivals and leaves the rest in order. */
  lemma {:induction false} LiveGiveUp(arrivals: seq<nat>, gaveUp: set<nat>, t: nat)
    requires Distinct(arrivals)
    ensures Live(arrivals, gaveUp + {t}) == Drop(Live(arrivals, gaveUp), t)
  {
    if arrivals != [] {
      var init, last := arrivals[..|arrivals| - 1], arrivals[|arrivals| - 1];
      assert arrivals == init + [last];
      LiveGiveUp(init, gaveUp, t);
      LiveMembers(init, gaveUp);
      DropAppend(Live(init, gaveUp), last, t);
    }
  }

  lemma {:induction false} DropAppend(q: seq<nat>, x: nat, t: nat)
    ensures t in q ==> Drop(q + [x], t) == Drop(q, t) + [x]
    ensures t !in q ==> Drop(q, t) == q && Drop(q + [x], t) == if x == t then q else q + [x]
  {
    if q != [] {
      DropAppend(q[1..], x, t);
      assert (q + [x])[1..] == q[1..] + [x];
      assert [q[0]] + q[1..] == q;
    }
  }

  lemma {:induction false} DropSuffix(p: seq<nat>, q: seq<nat>, t: nat)
    requires t !in p
    ensures Drop(p + q, t) == p + Drop(q, t)
  {
    if p == [] {
      assert p + q == q;
    } else {
      DropSuffix(p[1..], q, t);
      assert (p + q)[1..] == p[1..] + q;
    }
  }

  lemma StepKeeps(initial: nat, r: Run, e: Event)
    requires Inv(initial, r) && Enabled(r, e)
    ensures Inv(initial, Step(r, e))
  {
    var r' := Step(r, e);
    LiveMembers(r.arrivals, r.gaveUp);
    match e
    case DoWait(t) => LiveAppend(r.arrivals, r.gaveUp, t);
    case DoTryWait(t) => LiveAppend(r.arrivals, r.gaveUp, t);
    case DoExpiredWait(t) => LiveAppend(r.arrivals, r.gaveUp, t);
    case DoSignal =>
      if r.sem.waiters != [] {
        assert r'.grants + r'.sem.waiters == r.grants + r.sem.waiters;
      }
    case DoTimeout(t) => TimeoutKeeps(initial, r, t);
  }

  lemma TimeoutKeeps(initial: nat, r: Run, t: nat)
    requires Inv(initial, r) && t in r.sem.waiters
    ensures Inv(initial, Step(r, DoTimeout(t)))
  {
    LiveMembers(r.arrivals, r.gaveUp);
    Apart(r.grants, r.sem.waiters, t);
    assert t in r.grants + r.sem.waiters;
    LiveGiveUp(r.arrivals, r.gaveUp, t);
    DropSuffix(r.grants, r.sem.waiters, t);
  }

  lemma Apart(p: seq<nat>, q: seq<nat>, t: nat)
    requires Distinct(p + q)
    ensures t in q ==> t !in p
    ensures t !in p + q ==> t !in p
  {
    forall i, j | 0 <= i < |p| && 0 <= j < |q| ensures p[i] != q[j] {
      assert (p + q)[i] == p[i] && (p + q)[|p| + j] == q[j];
    }
  }

  lemma {:induction false} RunKeeps(initial: nat, events: seq<Event>)
    requires IsRun(initial, events)
    ensures Inv(initial, After(initial, events))
  {
    if events != [] {
      RunKeeps(initial, events[..|events| - 1]);
      StepKeeps(initial, After(initial, events[..|events| - 1]), events[|events| - 1]);
    }
  }

  /** Permits are conserved, an unused permit means no waiter, a call that gave up has no permit, and
      the permits given are exactly the first live arrivals, as many as the permits there ever were
      allow. */
  ghost predicate Law(initial: nat, r: Run) {
    var live := Live(r.arrivals, r.gaveUp);
    var k := Min(initial + r.signals, |live|);
    && initial + r.signals == r.sem.count + |r.grants|
    && (r.sem.count > 0 ==> r.sem.waiters == [])
    && (forall t | t in r.gaveUp :: t !in r.grants)
    && r.grants == live[..k]
    && r.sem.waiters == live[k..]
  }

  lemma InvLaw(initial: nat, r: Run)
    requires Inv(initial, r)
    ensures Law(initial, r)
  {
    LiveMembers(r.arrivals, r.gaveUp);
    hide Live;
    forall t | t in r.gaveUp ensures t !in r.grants {
      assert t !in r.grants + r.sem.waiters;
      Apart(r.grants, r.sem.waiters, t);
    }
    var live := Live(r.arrivals, r.gaveUp);
    assert Min(initial + r.signals, |live|) == |r.grants|;
    assert live[..|r.grants|] == r.grants && live[|r.grants|..] == r.sem.waiters;
  }

  /** The law of the semaphore, after every run. */
  lemma SemaphoreLaw(initial: nat, events: seq<Event>)
    requires IsRun(initial, events)
    ensures Law(initial, After(initial, events))
  {
    RunKeeps(initial, events);
    InvLaw(initial, After(initial, events));
  }
}
