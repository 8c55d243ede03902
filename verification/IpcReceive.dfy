/** What a call takes and what it refuses: receiving checks the message and who sent it, and over every run what
    a thread stores after receiving from a thread came from that thread. */
module IpcReceive {
  import opened Semaphore
  import opened Ipc
  import opened IpcDelivery
  import opened Prelude
  import Messages

  /** The tag announces an item: one of its twelve low bits is set. */
  predicate Announces(tag: Register) {
    tag % 0x1000 != 0
  }

  /** Receiving takes the message exactly if its tag announces an item and it comes from the thread asked for, if
      one was; otherwise it stops the kernel. Nothing but the thread's own place changes. */
  lemma CheckExact(S: State, t: nat)
    requires Enabled(S, CheckMessage(t))
    ensures var th, S' := S[t], Step(S, CheckMessage(t));
      && (S'[t].phase == Received <==>
            Announces(th.mr[0]) && (th.phase.from == None || th.phase.from == Some(th.sender)))
      && (Running(S') <==> S'[t].phase == Received)
      && S' == S[t := th.(phase := S'[t].phase, token := S'[t].token)]
      && (Running(S') ==> S'[t].token == th.token)
  {
    TagItems(S[t].mr[0]);
    assert S[t].phase != Halted;
  }

  lemma TagItems(tag: Register)
    ensures Announces(tag) <==> Messages.Untyped(tag) != 0 || Messages.Typed(tag) != 0
  {
    assert tag % 0x1000 == tag % 64 + 64 * (tag / 64 % 64);
  }

  /** A sender that finds no room waits behind those that wait already, and the target is left as it is. */
  lemma QueuedLast(S: State, t: nat, to: nat)
    requires Enabled(S, SendCall(t, to)) && S[to].e.count == 0
    ensures Step(S, SendCall(t, to)) ==
      S[t := S[t].(phase := WaitingRoom(to))][to := S[to].(e := Sem(0, S[to].e.waiters + [t]))]
  {
  }

  /** A wait that times out stops the kernel, and takes nothing from anybody. */
  lemma TimeOutStops(S: State, t: nat)
    requires TokenInv(S) && Enabled(S, TimeOut(t))
    ensures var S' := Step(S, TimeOut(t));
      && !Running(S') && S'[t].phase == Halted
      && forall r: nat | r < |S| ::
           && S'[r].mr == S[r].mr && S'[r].e.count == S[r].e.count && S'[r].f.count == S[r].f.count
           && S'[r].token == S[r].token && S'[r].granted == S[r].granted && S'[r].stored == S[r].stored
  {
  }

  // ----- who was asked for

  /** Whom thread `t` has asked for in its last call to receive, if anyone. */
  function Asked(events: seq<Event>, n: nat, t: nat): Option<nat>
    requires n <= |events|
  {
    if n == 0 then None
    else if events[n - 1].ReceiveCall? && events[n - 1].t == t then events[n - 1].from
    else Asked(events, n - 1, t)
  }

  /** A thread that receives asks for `from`; once it has taken a message, that is who sent it. */
  predicate AskedOk(th: Thread, from: Option<nat>) {
    match th.phase
    case WaitingFull(f) => f == from
    case GotFull(f) => f == from
    case Received => from == None || from == Some(th.sender)
    case Storing(_) => from == None || from == Some(th.sender)
    case _ => true
  }

  lemma AskedOwn(S: State, e: Event, from: Option<nat>)
    requires Enabled(S, e) && TokenInv(S) && e.t < |S| && AskedOk(S[e.t], from)
    ensures AskedOk(Step(S, e)[e.t], if e.ReceiveCall? then e.from else from)
  {
    assert TokenOk(S, e.t);
  }

  lemma AskedOther(S: State, e: Event, t: nat, from: Option<nat>)
    requires Enabled(S, e) && TokenInv(S) && t < |S| && t != e.t && AskedOk(S[t], from)
    ensures AskedOk(Step(S, e)[t], from)
  {
    assert TokenOk(S, t) && TokenOk(S, e.t);
  }

  lemma AskedStep(S: State, events: seq<Event>, n: nat, t: nat)
    requires n < |events| && Enabled(S, events[n]) && TokenInv(S) && t < |S| && AskedOk(S[t], Asked(events, n, t))
    ensures AskedOk(Step(S, events[n])[t], Asked(events, n + 1, t))
  {
    hide TokenInv, Step, Enabled, AskedOk;
    if events[n].t == t {
      AskedOwn(S, events[n], Asked(events, n, t));
    } else {
      AskedOther(S, events[n], t, Asked(events, n, t));
    }
  }

  lemma {:induction false} AskedHolds(run: seq<State>, events: seq<Event>, n: nat, t: nat)
    requires IsRun(run, events) && n < |run| && t < |run[n]|
    ensures AskedOk(run[n][t], Asked(events, n, t))
  {
    if n > 0 {
      AskedHolds(run, events, n - 1, t);
      RunToken(run, events, n - 1);
      hide TokenInv, Step, Enabled, AskedOk;
      AskedStep(run[n - 1], events, n - 1, t);
    }
  }

  /** In every run, what a thread stores after receiving from `x` was sent by `x`. */
  lemma StoredFromAsked(run: seq<State>, events: seq<Event>, n: nat, t: nat)
    requires IsRun(run, events) && n < |events| && events[n] == StoreDone(t) && Asked(events, n, t).Some?
    ensures t < |run[n]| && t < |run[n + 1]|
    ensures var before, after := run[n][t].stored, run[n + 1][t].stored;
      |after| == |before| + 1 && after[..|before|] == before && Some(after[|before|].sender) == Asked(events, n, t)
  {
    AskedHolds(run, events, n, t);
  }
}
