/** Message passing between any number of threads, as a step system: one step per semaphore call and
    one per register copied, in every interleaving.

    A thread has one register array for both directions, and a sender copies into its target's array
    without holding the target's lock: only the semaphores `e` (room) and `f` (full) order the
    accesses. A failed wait, an empty message or the wrong sender stops the kernel, the last because the
    system call panics on the error that receiving returns: a thread is then `Halted`, and no step is possible
    any more. */
module Ipc {
  import opened Semaphore
  import opened Prelude
  import Messages

  const MR_SIZE: nat := 64

  type Register = nat
  type Message = seq<Register>

  /** A tag and as many items as it announces, with so few typed ones that sending has nothing to do but the
      copy: the loop of send_extended_items then ends at once. */
  predicate IsMessage(m: Message) {
    && 0 < |m| <= MR_SIZE && |m| == 1 + Messages.Untyped(m[0]) + Messages.Typed(m[0])
    && Messages.Typed(m[0]) <= Messages.Untyped(m[0]) + 1
  }

  /** Where a thread is in load, send, receive or wait, and store. */
  datatype Phase =
    | Idle
    | WaitingRoom(to: nat)
    | GotRoom(to: nat)
    | Copying(to: nat, k: nat)
    | WaitingFull(from: Option<nat>)
    | GotFull(from: Option<nat>)
    | Received
    | Storing(out: Message)
    | Halted

  datatype Delivery = Delivery(sender: nat, msg: Message)

  /** Who may use a thread's registers for a delivery to it. */
  datatype Token = Room | Writer(holder: nat) | Full | Reader | Lost

  /** The first five fields are the source's. The rest records the past: the message last loaded; who
      holds the delivery token; deliveries in the order senders got `e`, each with the message its
      sender loaded last, and as the receiver stored them. */
  datatype Thread = Thread(
    phase: Phase, mr: seq<Register>, sender: nat, e: Sem, f: Sem,
    loaded: Option<Message>, token: Token, granted: seq<Delivery>, stored: seq<Delivery>)

  type State = seq<Thread>

  datatype Event =
    | Load(t: nat, m: Message)
    | SendCall(t: nat, to: nat)
    | SetSender(t: nat)
    | CopyRegister(t: nat)
    | SendDone(t: nat)
    | ReceiveCall(t: nat, from: Option<nat>)
    | CheckMessage(t: nat)
    | StoreTag(t: nat)
    | StoreRegister(t: nat)
    | StoreDone(t: nat)
    | TimeOut(t: nat)

  predicate IsInitial(S: State) {
    forall t | 0 <= t < |S| ::
      S[t].phase == Idle && |S[t].mr| == MR_SIZE && S[t].e == Sem(1, []) && S[t].f == Sem(0, []) &&
      S[t].loaded == None && S[t].token == Room && S[t].granted == [] && S[t].stored == []
  }

  // ----- steps

  predicate Running(S: State) {
    forall t | 0 <= t < |S| :: S[t].phase != Halted
  }

  predicate Enabled(S: State, e: Event) {
    && Running(S)
    && e.t < |S| && |S[e.t].mr| == MR_SIZE
    && var th := S[e.t];
       match e
       case Load(_, m) => th.phase == Idle && IsMessage(m)
       case SendCall(_, to) => th.phase == Idle && to < |S| && to != e.t
       case SetSender(_) => th.phase.GotRoom? && th.phase.to < |S| && th.phase.to != e.t
       case CopyRegister(_) =>
         && th.phase.Copying? && th.phase.k < MR_SIZE
         && th.phase.to < |S| && th.phase.to != e.t && |S[th.phase.to].mr| == MR_SIZE
       case SendDone(_) => th.phase.Copying? && th.phase.k == MR_SIZE && th.phase.to < |S| && th.phase.to != e.t
       case ReceiveCall(_, _) => th.phase == Idle
       case CheckMessage(_) => th.phase.GotFull?
       case StoreTag(_) => th.phase == Received
       case StoreRegister(_) => th.phase.Storing? && 0 < |th.phase.out| < Length(th.mr[0]) && |th.phase.out| < MR_SIZE
       case StoreDone(_) => th.phase.Storing? && |th.phase.out| == Length(th.mr[0])
       case TimeOut(_) => (th.phase.WaitingRoom? && th.phase.to < |S| && th.phase.to != e.t) || th.phase.WaitingFull?
  }

  /** Registers a message with this tag takes up. */
  function Length(tag: Register): nat {
    1 + Messages.Untyped(tag) + Messages.Typed(tag)
  }

  /** The buffer of `to` goes to the sender `s`. */
  function Grant(S: State, s: nat, to: nat, room: Sem): State
    requires s < |S| && to < |S| && s != to
  {
    var msg := if S[s].loaded.Some? then S[s].loaded.value else [];
    S[s := S[s].(phase := GotRoom(to))]
     [to := S[to].(e := room, token := Writer(s), granted := S[to].granted + [Delivery(s, msg)])]
  }

  function AfterLoad(S: State, t: nat, m: Message): State
    requires Enabled(S, Load(t, m))
  {
    var th := S[t];
    S[t := th.(mr := m + th.mr[|m|..], loaded := Some(m))]
  }

  function AfterSendCall(S: State, t: nat, to: nat): State
    requires Enabled(S, SendCall(t, to))
  {
    var (room, now) := Wait(S[to].e, t);
    if now then Grant(S, t, to, room)
    else S[t := S[t].(phase := WaitingRoom(to))][to := S[to].(e := room)]
  }

  function AfterSetSender(S: State, t: nat): State
    requires Enabled(S, SetSender(t))
  {
    var to := S[t].phase.to;
    S[t := S[t].(phase := Copying(to, 0))][to := S[to].(sender := t)]
  }

  function AfterCopyRegister(S: State, t: nat): State
    requires Enabled(S, CopyRegister(t))
  {
    var (to, k) := (S[t].phase.to, S[t].phase.k);
    S[t := S[t].(phase := Copying(to, k + 1))][to := S[to].(mr := S[to].mr[k := S[t].mr[k]])]
  }

  function AfterSendDone(S: State, t: nat): State
    requires Enabled(S, SendDone(t))
  {
    var to := S[t].phase.to;
    var (full, woken) := Signal(S[to].f);
    var receiver := match woken
      case None => S[to].(f := full, token := Full)
      case Some(_) =>
        S[to].(f := full, token := Reader,
               phase := GotFull(if S[to].phase.WaitingFull? then S[to].phase.from else None));
    S[t := S[t].(phase := Idle)][to := receiver]
  }

  function AfterReceiveCall(S: State, t: nat, from: Option<nat>): State
    requires Enabled(S, ReceiveCall(t, from))
  {
    var (full, now) := Wait(S[t].f, t);
    if now then S[t := S[t].(f := full, phase := GotFull(from), token := Reader)]
    else S[t := S[t].(f := full, phase := WaitingFull(from))]
  }

  function AfterCheckMessage(S: State, t: nat): State
    requires Enabled(S, CheckMessage(t))
  {
    var th := S[t];
    if (Messages.Untyped(th.mr[0]) == 0 && Messages.Typed(th.mr[0]) == 0) || (th.phase.from.Some? && th.phase.from.value != th.sender)
    then S[t := th.(phase := Halted, token := Lost)]
    else S[t := th.(phase := Received)]
  }

  function AfterStore(S: State, t: nat): State
    requires Enabled(S, StoreTag(t)) || Enabled(S, StoreRegister(t))
  {
    var th := S[t];
    if th.phase == Received then S[t := th.(phase := Storing([th.mr[0]]))]
    else S[t := th.(phase := Storing(th.phase.out + [th.mr[|th.phase.out|]]))]
  }

  function AfterStoreDone(S: State, t: nat): State
    requires Enabled(S, StoreDone(t))
  {
    var th := S[t];
    var S' := S[t := th.(phase := Idle, stored := th.stored + [Delivery(th.sender, th.phase.out)], token := Room)];
    var (room, woken) := Signal(th.e);
    if woken.Some? && woken.value < |S| && woken.value != t then Grant(S', woken.value, t, room)
    else S'[t := S'[t].(e := room)]
  }

  function AfterTimeOut(S: State, t: nat): State
    requires Enabled(S, TimeOut(t))
  {
    var th := S[t];
    if th.phase.WaitingRoom? then
      var to := th.phase.to;
      S[t := th.(phase := Halted)][to := S[to].(e := Cancel(S[to].e, t))]
    else S[t := th.(phase := Halted, f := Cancel(th.f, t))]
  }

  function Step(S: State, e: Event): (S': State)
    requires Enabled(S, e)
    ensures |S'| == |S|
  {
    match e
    case Load(t, m) => AfterLoad(S, t, m)
    case SendCall(t, to) => AfterSendCall(S, t, to)
    case SetSender(t) => AfterSetSender(S, t)
    case CopyRegister(t) => AfterCopyRegister(S, t)
    case SendDone(t) => AfterSendDone(S, t)
    case ReceiveCall(t, from) => AfterReceiveCall(S, t, from)
    case CheckMessage(t) => AfterCheckMessage(S, t)
    case StoreTag(t) => AfterStore(S, t)
    case StoreRegister(t) => AfterStore(S, t)
    case StoreDone(t) => AfterStoreDone(S, t)
    case TimeOut(t) => AfterTimeOut(S, t)
  }

  // ----- the token, in every run

  predicate Writing(p: Phase, r: nat) {
    p == GotRoom(r) || (p.Copying? && p.to == r)
  }

  predicate Reading(p: Phase) {
    p.GotFull? || p.Received? || p.Storing?
  }

  /** What the token says about the thread's own fields. */
  ghost predicate OwnOk(S: State, r: nat)
    requires r < |S|
  {
    var th := S[r];
    && |th.mr| == MR_SIZE
    && th.e.count == (if th.token == Room then 1 else 0) && Semaphore.Valid(th.e)
    && th.f.count == (if th.token == Full then 1 else 0) && Semaphore.Valid(th.f)
    && (th.token == Reader <==> Reading(th.phase))
    && (th.token == Lost ==> th.phase == Halted)
    && Distinct(th.e.waiters)
    && th.f.waiters == (if th.phase.WaitingFull? then [r] else [])
    && (th.phase.WaitingRoom? || th.phase.GotRoom? || th.phase.Copying? ==> th.phase.to < |S| && th.phase.to != r)
    && (th.phase.Copying? ==> th.phase.k <= MR_SIZE)
  }

  /** What the token and the queue of `e` say about the other threads. */
  ghost predicate PeersOk(S: State, r: nat)
    requires r < |S|
  {
    var th := S[r];
    && (th.token.Writer? ==> th.token.holder < |S| && Writing(S[th.token.holder].phase, r))
    && (forall s: nat | s < |S| && Writing(S[s].phase, r) :: th.token == Writer(s))
    && (forall s: nat :: s in th.e.waiters <==> s < |S| && S[s].phase == WaitingRoom(r))
  }

  /** One token per thread: in `e`, with one sender, in `f`, with the thread itself, or lost with a
      rejected message. The wait queues hold exactly the waiting threads. */
  ghost predicate TokenOk(S: State, r: nat)
    requires r < |S|
  {
    OwnOk(S, r) && PeersOk(S, r)
  }

  ghost predicate TokenInv(S: State) {
    forall r: nat | r < |S| :: TokenOk(S, r)
  }

  lemma InitialToken(S: State)
    requires IsInitial(S)
    ensures TokenInv(S)
  {
  }

  /** Steps of a thread alone: neither its place among its peers nor its queue changes. */
  lemma AloneToken(S: State, S': State, t: nat, r: nat)
    requires t < |S| == |S'| && r < |S| && S' == S[t := S'[t]]
    requires TokenOk(S, r) && OwnOk(S', t)
    requires S'[t].e == S[t].e
    requires S'[t].token == S[t].token || (!S[t].token.Writer? && !S'[t].token.Writer?)
    requires forall p: nat :: Writing(S'[t].phase, p) <==> Writing(S[t].phase, p)
    requires forall p: nat :: S'[t].phase == WaitingRoom(p) <==> S[t].phase == WaitingRoom(p)
    ensures TokenOk(S', r)
  {
    assert forall s: nat | s < |S| :: Writing(S'[s].phase, r) <==> Writing(S[s].phase, r);
    assert forall s: nat | s < |S| :: S'[s].phase == WaitingRoom(r) <==> S[s].phase == WaitingRoom(r);
  }

  lemma LoadToken(S: State, t: nat, m: Message, r: nat)
    requires Enabled(S, Load(t, m)) && r < |S| && TokenOk(S, r) && TokenOk(S, t)
    ensures TokenOk(AfterLoad(S, t, m), r)
  {
    AloneToken(S, AfterLoad(S, t, m), t, r);
  }

  lemma ReceiveCallToken(S: State, t: nat, from: Option<nat>, r: nat)
    requires Enabled(S, ReceiveCall(t, from)) && r < |S| && TokenOk(S, r) && TokenOk(S, t)
    ensures TokenOk(AfterReceiveCall(S, t, from), r)
  {
    AloneToken(S, AfterReceiveCall(S, t, from), t, r);
  }

  lemma CheckMessageToken(S: State, t: nat, r: nat)
    requires Enabled(S, CheckMessage(t)) && r < |S| && TokenOk(S, r) && TokenOk(S, t)
    ensures TokenOk(AfterCheckMessage(S, t), r)
  {
    AloneToken(S, AfterCheckMessage(S, t), t, r);
  }

  lemma StoreToken(S: State, t: nat, r: nat)
    requires (Enabled(S, StoreTag(t)) || Enabled(S, StoreRegister(t))) && r < |S| && TokenOk(S, r) && TokenOk(S, t)
    ensures TokenOk(AfterStore(S, t), r)
  {
    AloneToken(S, AfterStore(S, t), t, r);
  }

  /** Steps of a sender in its copy. */
  lemma CopyToken(S: State, S': State, t: nat, to: nat, r: nat)
    requires t < |S| == |S'| && to < |S| && r < |S| && t != to && S' == S[t := S'[t]][to := S'[to]]
    requires TokenOk(S, r) && TokenOk(S, t) && TokenOk(S, to)
    requires Writing(S[t].phase, to) && Writing(S'[t].phase, to) && (S'[t].phase.Copying? ==> S'[t].phase.k <= MR_SIZE)
    requires S'[t] == S[t].(phase := S'[t].phase)
    requires S'[to] == S[to].(mr := S'[to].mr, sender := S'[to].sender) && |S'[to].mr| == MR_SIZE
    ensures TokenOk(S', r)
  {
    assert forall s: nat | s < |S| :: Writing(S'[s].phase, r) <==> Writing(S[s].phase, r);
    assert forall s: nat | s < |S| :: S'[s].phase == WaitingRoom(r) <==> S[s].phase == WaitingRoom(r);
    assert OwnOk(S', r);
  }

  /** The room of `to` goes to `w`, which leaves the queue if it was in it. */
  lemma GrantPeers(S: State, S': State, w: nat, to: nat, r: nat)
    requires w < |S| == |S'| && to < |S| && r < |S| && w != to && S' == S[w := S'[w]][to := S'[to]]
    requires PeersOk(S, r) && PeersOk(S, to) && !S[to].token.Writer?
    requires S[w].phase == Idle || S[w].phase == WaitingRoom(to)
    requires S'[w] == S[w].(phase := GotRoom(to)) && S'[to].token == Writer(w)
    requires forall s: nat :: s in S'[to].e.waiters <==> s in S[to].e.waiters && s != w
    requires forall p: nat :: Writing(S'[to].phase, p) <==> Writing(S[to].phase, p)
    requires forall p: nat :: S'[to].phase == WaitingRoom(p) <==> S[to].phase == WaitingRoom(p)
    ensures PeersOk(S', r)
  {
    assert forall s: nat | s < |S| && s != w :: Writing(S'[s].phase, r) <==> Writing(S[s].phase, r);
    assert forall s: nat | s < |S| && s != w :: S'[s].phase == WaitingRoom(r) <==> S[s].phase == WaitingRoom(r);
  }

  lemma SendCallToken(S: State, t: nat, to: nat, r: nat)
    requires Enabled(S, SendCall(t, to)) && r < |S| && TokenOk(S, r) && TokenOk(S, t) && TokenOk(S, to)
    ensures TokenOk(AfterSendCall(S, t, to), r)
  {
    var S' := AfterSendCall(S, t, to);
    assert t !in S[to].e.waiters;
    assert OwnOk(S', r);
    if S[to].e.count > 0 {
      GrantPeers(S, S', t, to, r);
    } else {
      QueuePeers(S, S', t, to, r);
    }
  }

  lemma QueuePeers(S: State, S': State, t: nat, to: nat, r: nat)
    requires t < |S| && to < |S| && r < |S| && t != to && PeersOk(S, r) && S[t].phase == Idle
    requires S' == S[t := S[t].(phase := WaitingRoom(to))][to := S[to].(e := Sem(0, S[to].e.waiters + [t]))]
    ensures PeersOk(S', r)
  {
    assert forall s: nat | s < |S| && s != t :: S'[s].phase == S[s].phase;
  }

  lemma SendDoneToken(S: State, t: nat, r: nat)
    requires Enabled(S, SendDone(t)) && r < |S| && TokenOk(S, r) && TokenOk(S, t) && TokenOk(S, S[t].phase.to)
    ensures TokenOk(AfterSendDone(S, t), r)
  {
    var S', to := AfterSendDone(S, t), S[t].phase.to;
    assert OwnOk(S', r);
    assert S'[r].e == S[r].e;
    assert forall s: nat | s < |S| && s != t :: Writing(S'[s].phase, r) <==> Writing(S[s].phase, r);
    assert forall s: nat | s < |S| :: S'[s].phase == WaitingRoom(r) <==> S[s].phase == WaitingRoom(r);
  }

  lemma StoreDoneToken(S: State, t: nat, r: nat)
    requires Enabled(S, StoreDone(t)) && r < |S| && TokenOk(S, r) && TokenOk(S, t)
    requires forall s: nat | s in S[t].e.waiters :: s < |S| && TokenOk(S, s)
    ensures TokenOk(AfterStoreDone(S, t), r)
  {
    var S' := AfterStoreDone(S, t);
    var q := S[t].e.waiters;
    if q == [] {
      assert S' == S[t := S'[t]];
      AloneRoom(S, S', t, r);
    } else {
      assert q[0] in q && q == [q[0]] + q[1..];
      HandOff(S, S', t, q[0], r);
    }
  }

  lemma AloneRoom(S: State, S': State, t: nat, r: nat)
    requires Enabled(S, StoreDone(t)) && S[t].e.waiters == [] && S' == AfterStoreDone(S, t)
    requires r < |S| && TokenOk(S, r) && TokenOk(S, t)
    ensures TokenOk(S', r)
  {
    assert forall s: nat | s < |S| :: Writing(S'[s].phase, r) <==> Writing(S[s].phase, r);
    assert forall s: nat | s < |S| :: S'[s].phase == WaitingRoom(r) <==> S[s].phase == WaitingRoom(r);
  }

  /** The room goes straight to the first waiting sender. */
  lemma HandOff(S: State, S': State, t: nat, w: nat, r: nat)
    requires Enabled(S, StoreDone(t)) && S' == AfterStoreDone(S, t)
    requires S[t].e.waiters != [] && w == S[t].e.waiters[0] && w < |S| && w != t
    requires r < |S| && TokenOk(S, r) && TokenOk(S, t) && TokenOk(S, w) && S[w].phase == WaitingRoom(t)
    ensures TokenOk(S', r)
  {
    var q := S[t].e.waiters;
    assert q == [w] + q[1..] && w !in q[1..];
    assert S'[w] == S[w].(phase := GotRoom(t));
    assert S'[t].phase == Idle && S'[t].token == Writer(w) && S'[t].e == Sem(0, q[1..]);
    assert OwnOk(S', r) by {
      hide PeersOk;
      assert Distinct(q[1..]);
    }
    hide OwnOk, Enabled;
    GrantPeers(S, S', w, t, r);
  }

  lemma TimeOutToken(S: State, t: nat, r: nat)
    requires Enabled(S, TimeOut(t)) && r < |S| && TokenOk(S, r) && TokenOk(S, t)
    requires S[t].phase.WaitingRoom? ==> TokenOk(S, S[t].phase.to)
    ensures TokenOk(AfterTimeOut(S, t), r)
  {
    var S' := AfterTimeOut(S, t);
    if S[t].phase.WaitingFull? {
      assert Drop([t], t) == [];
      AloneToken(S, S', t, r);
    } else {
      var to := S[t].phase.to;
      DropMembers(S[to].e.waiters, t);
      assert OwnOk(S', r);
      LeavePeers(S, S', t, to, r);
    }
  }

  lemma LeavePeers(S: State, S': State, t: nat, to: nat, r: nat)
    requires t < |S| == |S'| && to < |S| && r < |S| && t != to && PeersOk(S, r) && S[t].phase == WaitingRoom(to)
    requires S' == S[t := S[t].(phase := Halted)][to := S[to].(e := S'[to].e)]
    requires forall s: nat :: s in S'[to].e.waiters <==> s in S[to].e.waiters && s != t
    ensures PeersOk(S', r)
  {
    assert forall s: nat | s < |S| && s != t :: S'[s].phase == S[s].phase;
  }

  /** No step of any thread makes or loses a token. */
  lemma TokenStep(S: State, e: Event)
    requires TokenInv(S) && Enabled(S, e)
    ensures TokenInv(Step(S, e))
  {
    var S' := Step(S, e);
    forall r: nat | r < |S'| ensures TokenOk(S', r) {
      assert TokenOk(S, r) && TokenOk(S, e.t);
      hide PeersOk;
      match e
      case Load(t, m) => LoadToken(S, t, m, r);
      case SendCall(t, to) => assert TokenOk(S, to); SendCallToken(S, t, to, r);
      case SetSender(t) => assert TokenOk(S, S[t].phase.to); CopyToken(S, S', t, S[t].phase.to, r);
      case CopyRegister(t) => assert TokenOk(S, S[t].phase.to); CopyToken(S, S', t, S[t].phase.to, r);
      case SendDone(t) => assert TokenOk(S, S[t].phase.to); SendDoneToken(S, t, r);
      case ReceiveCall(t, from) => ReceiveCallToken(S, t, from, r);
      case CheckMessage(t) => CheckMessageToken(S, t, r);
      case StoreTag(t) => StoreToken(S, t, r);
      case StoreRegister(t) => StoreToken(S, t, r);
      case StoreDone(t) => StoreDoneToken(S, t, r);
      case TimeOut(t) => assert S[t].phase.WaitingRoom? ==> TokenOk(S, S[t].phase.to); TimeOutToken(S, t, r);
    }
  }
}
