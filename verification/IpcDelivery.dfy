/** What receivers get. In every run one token per thread keeps senders and the receiver apart; in
    every run that keeps to the discipline below, each message is stored exactly once, unchanged, in
    the order in which senders were let in. */
module IpcDelivery {
  import opened Semaphore
  import opened Ipc
  import opened Prelude

  predicate Sending(p: Phase) {
    p.WaitingRoom? || p.GotRoom? || p.Copying?
  }

  function CopiedSoFar(p: Phase): nat {
    if p.Copying? then p.k else 0
  }

  /** The thread is in a send, and not all of its message has been copied out of its registers. */
  predicate Unsent(th: Thread) {
    Sending(th.phase) && (th.loaded.Some? ==> CopiedSoFar(th.phase) < |th.loaded.value|)
  }

  /** The message last loaded stands in the registers, and no delivery to the thread is let in or unread. */
  predicate Ready(th: Thread) {
    th.loaded.Some? && IsMessage(th.loaded.value) && th.loaded.value <= th.mr && th.token == Room
  }

  /** Loading into the registers of `t` now destroys nothing of a delivery to it. */
  predicate LoadHarmless(S: State, t: nat)
    requires t < |S|
  {
    match S[t].token
    case Room => true
    case Lost => true
    case Writer(s) => s < |S| && (S[s].phase.Copying? ==> S[s].phase.k == 0)
    case Full => false
    case Reader => false
  }

  /** Nobody is let in by this call to a thread with a message of its own still to be copied. */
  predicate LetInHarmless(S: State, to: nat)
    requires to < |S|
  {
    S[to].e.count > 0 ==> !Unsent(S[to])
  }

  /** What clients have to keep to, because a thread's outgoing and incoming messages share its
      registers: no load over a delivery, no send unless the loaded message is still there, and no
      delivery let in to a thread whose own message is still to be copied. */
  predicate Disciplined(S: State, e: Event)
    requires Enabled(S, e)
  {
    match e
    case Load(t, _) => LoadHarmless(S, t)
    case SendCall(t, to) => Ready(S[t]) && LetInHarmless(S, to)
    case _ => true
  }

  // ----- the invariant

  /** As long as part of a message is to be copied, it stands in the registers and nobody writes there. */
  ghost predicate SourceOk(S: State, t: nat)
    requires t < |S|
  {
    var th := S[t];
    && |th.mr| == MR_SIZE
    && (th.loaded.Some? ==> IsMessage(th.loaded.value))
    && (Unsent(th) ==> Ready(th))
  }

  /** The first `k` registers agree with the message, as far as it goes. */
  predicate Copied(mr: seq<Register>, m: Message, k: nat) {
    |m| <= |mr| && forall j | 0 <= j < k && j < |m| :: mr[j] == m[j]
  }

  /** All deliveries let in are stored, except one while the token is out; of that one the registers
      hold what has been copied. */
  ghost predicate PendingOk(S: State, r: nat)
    requires r < |S|
  {
    var th := S[r];
    if th.token == Room then th.stored == th.granted
    else
      && |th.granted| == |th.stored| + 1
      && th.stored == th.granted[..|th.stored|]
      && var d := th.granted[|th.stored|];
         && IsMessage(d.msg)
         && (th.token.Writer? ==>
               && d.sender == th.token.holder < |S|
               && S[d.sender].loaded == Some(d.msg)
               && (S[d.sender].phase.Copying? ==>
                     th.sender == d.sender && Copied(th.mr, d.msg, S[d.sender].phase.k)))
         && (th.token == Full || th.token == Reader ==> th.sender == d.sender && d.msg <= th.mr)
         && (th.phase.Storing? ==> 0 < |th.phase.out| && th.phase.out <= d.msg)
  }

  ghost predicate DataOk(S: State, t: nat)
    requires t < |S|
  {
    SourceOk(S, t) && PendingOk(S, t)
  }

  ghost predicate Inv(S: State) {
    && TokenInv(S)
    && forall t: nat | t < |S| :: DataOk(S, t)
  }

  // ----- steps of one thread on itself

  /** A change to thread `t` alone that leaves its outgoing message in place disturbs no other thread. */
  lemma AloneOthers(S: State, S': State, t: nat, r: nat)
    requires t < |S| == |S'| && r < |S| && r != t && S' == S[t := S'[t]]
    requires DataOk(S, r) && PeersOk(S, r)
    requires S'[t].loaded == S[t].loaded || !Sending(S[t].phase)
    requires S'[t].phase.Copying? ==> S'[t].phase == S[t].phase
    ensures DataOk(S', r)
  {
  }

  lemma LoadData(S: State, t: nat, m: Message)
    requires Enabled(S, Load(t, m)) && Disciplined(S, Load(t, m)) && TokenOk(S, t) && DataOk(S, t)
    ensures DataOk(AfterLoad(S, t, m), t)
  {
    var S' := AfterLoad(S, t, m);
    assert m <= S'[t].mr;
  }

  lemma ReceiveCallData(S: State, t: nat, from: Option<nat>)
    requires Enabled(S, ReceiveCall(t, from)) && TokenOk(S, t) && DataOk(S, t)
    ensures DataOk(AfterReceiveCall(S, t, from), t)
  {
  }

  lemma CheckMessageData(S: State, t: nat)
    requires Enabled(S, CheckMessage(t)) && TokenOk(S, t) && DataOk(S, t)
    ensures DataOk(AfterCheckMessage(S, t), t)
  {
  }

  lemma StoreData(S: State, t: nat)
    requires (Enabled(S, StoreTag(t)) || Enabled(S, StoreRegister(t))) && TokenOk(S, t) && DataOk(S, t)
    ensures DataOk(AfterStore(S, t), t)
  {
    var d := S[t].granted[|S[t].stored|];
    assert S[t].mr[0] == d.msg[0];
    if S[t].phase.Storing? {
      var out := S[t].phase.out;
      assert out + [S[t].mr[|out|]] <= d.msg;
    }
  }

  // ----- steps that change two threads

  /** The room of `to` goes to `w`. */
  lemma GrantData(S: State, w: nat, to: nat, room: Sem, r: nat)
    requires w < |S| && to < |S| && r < |S| && w != to
    requires DataOk(S, r) && DataOk(S, w) && DataOk(S, to) && PeersOk(S, r)
    requires Ready(S[w]) && !Unsent(S[to]) && !S[to].phase.Storing?
    requires S[to].token == Room && !S[w].phase.Copying?
    ensures DataOk(Grant(S, w, to, room), r)
  {
  }

  lemma QueueData(S: State, t: nat, to: nat, r: nat)
    requires Enabled(S, SendCall(t, to)) && Disciplined(S, SendCall(t, to)) && S[to].e.count == 0
    requires r < |S| && DataOk(S, r) && DataOk(S, t) && DataOk(S, to) && PeersOk(S, r)
    ensures DataOk(AfterSendCall(S, t, to), r)
  {
  }

  lemma SendCallData(S: State, t: nat, to: nat, r: nat)
    requires Enabled(S, SendCall(t, to)) && Disciplined(S, SendCall(t, to))
    requires r < |S| && DataOk(S, r) && DataOk(S, t) && DataOk(S, to) && PeersOk(S, r) && TokenOk(S, to)
    ensures DataOk(AfterSendCall(S, t, to), r)
  {
    if S[to].e.count > 0 {
      GrantData(S, t, to, Sem(S[to].e.count - 1, S[to].e.waiters), r);
    } else {
      QueueData(S, t, to, r);
    }
  }

  lemma SetSenderData(S: State, t: nat, r: nat)
    requires Enabled(S, SetSender(t)) && r < |S| && DataOk(S, r) && DataOk(S, t) && DataOk(S, S[t].phase.to)
    requires PeersOk(S, r) && PeersOk(S, S[t].phase.to)
    ensures DataOk(AfterSetSender(S, t), r)
  {
  }

  lemma CopyRegisterData(S: State, t: nat, r: nat)
    requires Enabled(S, CopyRegister(t)) && r < |S| && DataOk(S, r) && DataOk(S, t) && DataOk(S, S[t].phase.to)
    requires PeersOk(S, r) && PeersOk(S, S[t].phase.to)
    ensures DataOk(AfterCopyRegister(S, t), r)
  {
  }

  lemma SendDoneData(S: State, t: nat, r: nat)
    requires Enabled(S, SendDone(t)) && r < |S| && DataOk(S, r) && DataOk(S, t) && DataOk(S, S[t].phase.to)
    requires TokenOk(S, r) && TokenOk(S, S[t].phase.to)
    ensures DataOk(AfterSendDone(S, t), r)
  {
    var S', to := AfterSendDone(S, t), S[t].phase.to;
    assert S'[r].loaded == S[r].loaded && S'[r].granted == S[r].granted && S'[r].stored == S[r].stored;
    assert SourceOk(S', r);
    if r == to {
      assert PendingOk(S', to);
    } else {
      assert S'[r].token == S[r].token && S'[r].mr == S[r].mr;
      assert PendingOk(S', r);
    }
  }

  /** The message stored is the one let in, whole. */
  lemma StoredWhole(S: State, t: nat)
    requires Enabled(S, StoreDone(t)) && TokenOk(S, t) && DataOk(S, t)
    ensures S[t].stored + [Delivery(S[t].sender, S[t].phase.out)] == S[t].granted
  {
    var d := S[t].granted[|S[t].stored|];
    assert S[t].mr[0] == d.msg[0];
    assert S[t].phase.out == d.msg;
  }

  lemma StoreDoneData(S: State, t: nat, r: nat)
    requires Enabled(S, StoreDone(t)) && r < |S| && TokenOk(S, t) && TokenOk(S, r) && DataOk(S, t) && DataOk(S, r)
    requires forall s: nat | s in S[t].e.waiters :: s < |S| && TokenOk(S, s) && DataOk(S, s)
    ensures DataOk(AfterStoreDone(S, t), r)
  {
    StoredWhole(S, t);
    var th := S[t];
    var S1 := S[t := th.(phase := Idle, stored := th.granted, token := Room)];
    var q := th.e.waiters;
    assert DataOk(S1, t);
    assert DataOk(S1, r) by {
      if r != t { AloneOthers(S, S1, t, r); }
    }
    assert PeersOk(S1, r);
    if q != [] {
      var w := q[0];
      assert w in q;
      assert DataOk(S1, w) by { AloneOthers(S, S1, t, w); }
      hide DataOk, PeersOk;
      GrantData(S1, w, t, Sem(th.e.count, q[1..]), r);
    } else {
      var S2 := S1[t := S1[t].(e := Signal(th.e).0)];
      if r != t { AloneOthers(S1, S2, t, r); }
    }
  }

  lemma TimeOutData(S: State, t: nat, r: nat)
    requires Enabled(S, TimeOut(t)) && r < |S| && DataOk(S, r) && DataOk(S, t) && PeersOk(S, r)
    ensures DataOk(AfterTimeOut(S, t), r)
  {
  }

  lemma SelfData(S: State, e: Event)
    requires Enabled(S, e) && Disciplined(S, e) && TokenOk(S, e.t) && DataOk(S, e.t)
    requires e.Load? || e.ReceiveCall? || e.CheckMessage? || e.StoreTag? || e.StoreRegister?
    ensures Step(S, e) == S[e.t := Step(S, e)[e.t]] && DataOk(Step(S, e), e.t)
    ensures Step(S, e)[e.t].loaded == S[e.t].loaded || !Sending(S[e.t].phase)
    ensures !Step(S, e)[e.t].phase.Copying?
  {
    match e
    case Load(t, m) => LoadData(S, t, m);
    case ReceiveCall(t, from) => ReceiveCallData(S, t, from);
    case CheckMessage(t) => CheckMessageData(S, t);
    case StoreTag(t) => StoreData(S, t);
    case StoreRegister(t) => StoreData(S, t);
  }

  lemma DataStepAt(S: State, e: Event, r: nat)
    requires Inv(S) && Enabled(S, e) && Disciplined(S, e) && r < |S|
    ensures DataOk(Step(S, e), r)
  {
    assert TokenOk(S, e.t) && DataOk(S, e.t) && TokenOk(S, r) && DataOk(S, r);
    hide SourceOk, PendingOk;
    match e
    case SendCall(t, to) => assert TokenOk(S, to) && DataOk(S, to); SendCallData(S, t, to, r);
    case SetSender(t) => assert TokenOk(S, S[t].phase.to) && DataOk(S, S[t].phase.to); SetSenderData(S, t, r);
    case CopyRegister(t) => assert TokenOk(S, S[t].phase.to) && DataOk(S, S[t].phase.to); CopyRegisterData(S, t, r);
    case SendDone(t) => assert TokenOk(S, S[t].phase.to) && DataOk(S, S[t].phase.to); SendDoneData(S, t, r);
    case StoreDone(t) => StoreDoneData(S, t, r);
    case TimeOut(t) => TimeOutData(S, t, r);
    case _ =>
      SelfData(S, e);
      if r != e.t {
        AloneOthers(S, Step(S, e), e.t, r);
      }
  }

  lemma DataStep(S: State, e: Event)
    requires Inv(S) && Enabled(S, e) && Disciplined(S, e)
    ensures Inv(Step(S, e))
  {
    TokenStep(S, e);
    hide DataOk, TokenOk, Step, Enabled, Disciplined;
    forall r: nat | r < |S| ensures DataOk(Step(S, e), r) {
      DataStepAt(S, e, r);
    }
  }

  // ----- runs

  /** `run[i + 1]` follows `run[i]` by `events[i]`, from an initial state. */
  ghost predicate IsRun(run: seq<State>, events: seq<Event>) {
    && |run| == |events| + 1
    && IsInitial(run[0])
    && forall i | 0 <= i < |events| :: Enabled(run[i], events[i]) && run[i + 1] == Step(run[i], events[i])
  }

  ghost predicate AllDisciplined(run: seq<State>, events: seq<Event>)
    requires IsRun(run, events)
  {
    forall i | 0 <= i < |events| :: Disciplined(run[i], events[i])
  }

  lemma {:induction false} RunToken(run: seq<State>, events: seq<Event>, n: nat)
    requires IsRun(run, events) && n < |run|
    ensures TokenInv(run[n])
  {
    hide TokenInv, Step, Enabled;
    if n == 0 {
      InitialToken(run[0]);
    } else {
      RunToken(run, events, n - 1);
      TokenStep(run[n - 1], events[n - 1]);
    }
  }

  /** The senders between their grant and their signal to `r`. */
  ghost function Writers(S: State, r: nat): set<nat> {
    set s: nat | s < |S| && Writing(S[s].phase, r)
  }

  lemma WritersOne(S: State, r: nat)
    requires r < |S| && TokenOk(S, r)
    ensures |Writers(S, r)| == if S[r].token.Writer? then 1 else 0
  {
    if S[r].token.Writer? {
      assert Writers(S, r) == {S[r].token.holder};
    } else {
      assert Writers(S, r) == {};
    }
  }

  /** In every interleaving, at every moment and for every thread: the permits in `e` and `f`, the
      senders inside their copy and the receiver between receive and store come to exactly one, unless
      a message was rejected, and then to none. */
  lemma TokenLaw(run: seq<State>, events: seq<Event>, n: nat, r: nat)
    requires IsRun(run, events) && n < |run| && r < |run[n]|
    ensures var S := run[n];
      S[r].e.count + S[r].f.count + |Writers(S, r)| + (if Reading(S[r].phase) then 1 else 0)
      + (if S[r].token == Lost then 1 else 0) == 1
  {
    RunToken(run, events, n);
    WritersOne(run[n], r);
  }

  /** Hence while a sender writes the registers of `r` it is the only one to, and `r` is not reading. */
  lemma ExclusiveCopy(run: seq<State>, events: seq<Event>, n: nat, r: nat, s: nat)
    requires IsRun(run, events) && n < |run| && r < |run[n]| && s < |run[n]|
    requires Writing(run[n][s].phase, r)
    ensures !Reading(run[n][r].phase) && run[n][r].f.count == 0
    ensures forall s': nat | s' < |run[n]| && Writing(run[n][s'].phase, r) :: s' == s
  {
    RunToken(run, events, n);
    assert TokenOk(run[n], r);
  }

  lemma {:induction false} RunInv(run: seq<State>, events: seq<Event>, n: nat)
    requires IsRun(run, events) && AllDisciplined(run, events) && n < |run|
    ensures Inv(run[n])
  {
    if n == 0 {
      InitialToken(run[0]);
    } else {
      hide Inv, Step, Enabled;
      RunInv(run, events, n - 1);
      DataStep(run[n - 1], events[n - 1]);
    }
  }

  /** In every disciplined run, what `r` has stored is what was let in to it, message for message and in
      that order, but for at most one delivery still on its way. An entry of `granted` is the sender
      and the message it had loaded. */
  lemma DeliveryLaw(run: seq<State>, events: seq<Event>, n: nat, r: nat)
    requires IsRun(run, events) && AllDisciplined(run, events) && n < |run| && r < |run[n]|
    ensures run[n][r].stored <= run[n][r].granted
    ensures |run[n][r].granted| <= |run[n][r].stored| + 1
    ensures run[n][r].e.count == 1 ==> run[n][r].stored == run[n][r].granted
  {
    RunInv(run, events, n);
    assert DataOk(run[n], r) && TokenOk(run[n], r);
  }

  /** A delivery still on its way: fully copied, it stands in the registers of `r` as its sender
      loaded it. */
  lemma UnreadIntact(run: seq<State>, events: seq<Event>, n: nat, r: nat)
    requires IsRun(run, events) && AllDisciplined(run, events) && n < |run| && r < |run[n]|
    requires run[n][r].f.count == 1 || Reading(run[n][r].phase)
    ensures |run[n][r].granted| == |run[n][r].stored| + 1
    ensures run[n][r].granted[|run[n][r].stored|].msg <= run[n][r].mr
    ensures run[n][r].granted[|run[n][r].stored|].sender == run[n][r].sender
  {
    RunInv(run, events, n);
    assert DataOk(run[n], r) && TokenOk(run[n], r);
  }

  // ----- rules clients can check

  predicate Uses(e: Event, t: nat) {
    (e.Load? || e.SendCall?) && e.t == t
  }

  predicate Loads(e: Event, t: nat) {
    e.Load? && e.t == t
  }

  /** Nobody ever sends to the thread. */
  predicate NoTarget(events: seq<Event>, t: nat) {
    forall i | 0 <= i < |events| && events[i].SendCall? :: events[i].to != t
  }

  /** The thread never loads and never sends. */
  predicate NoSource(events: seq<Event>, t: nat) {
    forall i | 0 <= i < |events| :: !Uses(events[i], t)
  }

  predicate LoadedBefore(events: seq<Event>, n: nat, t: nat)
    requires n <= |events|
  {
    exists i | 0 <= i < n :: Loads(events[i], t)
  }

  /** No thread that loads or sends is ever sent to, and each send has a load of that thread before it. */
  predicate OneWay(events: seq<Event>) {
    forall i | 0 <= i < |events| && events[i].SendCall? ::
      NoSource(events, events[i].to) && LoadedBefore(events, i, events[i].t)
  }

  ghost predicate OneWayAt(S: State, events: seq<Event>, n: nat, t: nat)
    requires t < |S| && n <= |events|
  {
    && (NoTarget(events, t) ==> S[t].token == Room && (LoadedBefore(events, n, t) ==> Ready(S[t])))
    && (NoSource(events, t) ==> !Sending(S[t].phase))
  }

  lemma OneWayStep(S: State, events: seq<Event>, n: nat, t: nat)
    requires n < |events| && Enabled(S, events[n]) && TokenInv(S) && t < |S| && OneWayAt(S, events, n, t)
    ensures OneWayAt(Step(S, events[n]), events, n + 1, t)
  {
    assert TokenOk(S, t) && TokenOk(S, events[n].t);
    var e, S' := events[n], Step(S, events[n]);
    assert LoadedBefore(events, n + 1, t) <==> LoadedBefore(events, n, t) || Loads(e, t);
    if NoTarget(events, t) {
      assert e.SendCall? ==> e.to != t;
      QuietRegisters(S, e, t);
    }
    if NoSource(events, t) {
      assert !Uses(e, t);
    }
  }

  /** A step that is neither a send to `t` nor a load of `t` leaves its registers, while its room is free. */
  lemma QuietRegisters(S: State, e: Event, t: nat)
    requires Enabled(S, e) && t < |S| && TokenOk(S, t) && TokenOk(S, e.t) && S[t].token == Room
    requires e.SendCall? ==> e.to != t
    ensures Step(S, e)[t].token == Room
    ensures !Loads(e, t) ==> Step(S, e)[t].mr == S[t].mr && Step(S, e)[t].loaded == S[t].loaded
    ensures Loads(e, t) ==> Ready(Step(S, e)[t])
  {
    if Loads(e, t) {
      assert e.m <= Step(S, e)[t].mr;
    }
  }

  lemma {:induction false} OneWayHolds(run: seq<State>, events: seq<Event>, n: nat, t: nat)
    requires IsRun(run, events) && n < |run| && t < |run[n]|
    ensures OneWayAt(run[n], events, n, t)
  {
    if n > 0 {
      OneWayHolds(run, events, n - 1, t);
      RunToken(run, events, n - 1);
      hide TokenInv, Step, Enabled, OneWayAt;
      OneWayStep(run[n - 1], events, n - 1, t);
    }
  }

  /** Such runs keep to the discipline, whatever the interleaving. */
  lemma OneWayDisciplined(run: seq<State>, events: seq<Event>)
    requires IsRun(run, events) && OneWay(events)
    ensures AllDisciplined(run, events)
  {
    forall i | 0 <= i < |events| ensures Disciplined(run[i], events[i]) {
      var S, e := run[i], events[i];
      OneWayHolds(run, events, i, e.t);
      if Uses(e, e.t) {
        assert !NoSource(events, e.t);
        assert NoTarget(events, e.t);
      }
      if e.SendCall? {
        OneWayHolds(run, events, i, e.to);
      }
    }
  }

  /** Hence they deliver every message once, unchanged, in the order in which senders were let in. */
  lemma OneWayDelivers(run: seq<State>, events: seq<Event>, n: nat, r: nat)
    requires IsRun(run, events) && OneWay(events) && n < |run| && r < |run[n]|
    ensures run[n][r].stored <= run[n][r].granted
    ensures |run[n][r].granted| <= |run[n][r].stored| + 1
    ensures run[n][r].e.count == 1 ==> run[n][r].stored == run[n][r].granted
  {
    OneWayDisciplined(run, events);
    DeliveryLaw(run, events, n, r);
  }
}
