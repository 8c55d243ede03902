/** What can follow a state when nobody loads or sends any more: copies under way are completed, and
    receivers take and store what was delivered. */
module IpcFinish {
  import opened Semaphore
  import opened Ipc
  import opened IpcDelivery
  import opened Prelude

  predicate CanPlay(S: State, events: seq<Event>)
    decreases events
  {
    events == [] || (Enabled(S, events[0]) && CanPlay(Step(S, events[0]), events[1..]))
  }

  function Play(S: State, events: seq<Event>): (T: State)
    requires CanPlay(S, events)
    ensures |T| == |S|
    decreases events
  {
    if events == [] then S else Play(Step(S, events[0]), events[1..])
  }

  lemma {:induction false} PlayThen(S: State, a: seq<Event>, b: seq<Event>)
    requires CanPlay(S, a) && CanPlay(Play(S, a), b)
    ensures CanPlay(S, a + b) && Play(S, a + b) == Play(Play(S, a), b)
    decreases a
  {
    hide Enabled, Step;
    if a == [] {
      assert a + b == b;
    } else {
      assert (a + b)[1..] == a[1..] + b;
      PlayThen(Step(S, a[0]), a[1..], b);
    }
  }

  predicate Finishing(events: seq<Event>) {
    forall i | 0 <= i < |events| :: !events[i].Load? && !events[i].SendCall?
  }

  /** `T` can follow `S` with no further load or send. */
  ghost predicate Reaches(S: State, T: State) {
    exists events :: Finishing(events) && CanPlay(S, events) && Play(S, events) == T
  }

  lemma Stay(S: State)
    ensures Reaches(S, S)
  {
    assert Finishing([]) && CanPlay(S, []) && Play(S, []) == S;
  }

  lemma Go(S: State, e: Event)
    requires Enabled(S, e) && !e.Load? && !e.SendCall?
    ensures Reaches(S, Step(S, e))
  {
    hide Enabled, Step;
    assert [e][0] == e && [e][1..] == [];
    assert CanPlay(S, [e]) && Play(S, [e]) == Step(S, e) && Finishing([e]);
  }

  lemma Then(S: State, T: State, U: State)
    requires Reaches(S, T) && Reaches(T, U)
    ensures Reaches(S, U)
  {
    hide CanPlay, Play;
    var a :| Finishing(a) && CanPlay(S, a) && Play(S, a) == T;
    var b :| Finishing(b) && CanPlay(T, b) && Play(T, b) == U;
    PlayThen(S, a, b);
    assert Finishing(a + b);
  }

  lemma ThenGo(S: State, T: State, e: Event)
    requires Reaches(S, T) && Enabled(T, e) && !e.Load? && !e.SendCall?
    ensures Reaches(S, Step(T, e))
  {
    hide Enabled, Step, Reaches;
    Go(T, e);
    Then(S, T, Step(T, e));
  }

  lemma {:induction false} PlayInv(S: State, events: seq<Event>)
    requires Inv(S) && Finishing(events) && CanPlay(S, events)
    ensures Inv(Play(S, events))
    decreases events
  {
    hide Inv, Enabled, Step;
    if events != [] {
      DataStep(S, events[0]) by { assert Disciplined(S, events[0]); }
      PlayInv(Step(S, events[0]), events[1..]);
    }
  }

  lemma ReachesInv(S: State, T: State)
    requires Inv(S) && Reaches(S, T)
    ensures Inv(T)
  {
    hide Inv, CanPlay, Play;
    var events :| Finishing(events) && CanPlay(S, events) && Play(S, events) == T;
    PlayInv(S, events);
  }

  lemma {:induction false} PlayToken(S: State, events: seq<Event>)
    requires TokenInv(S) && CanPlay(S, events)
    ensures TokenInv(Play(S, events))
    decreases events
  {
    hide TokenInv, Enabled, Step;
    if events != [] {
      TokenStep(S, events[0]);
      PlayToken(Step(S, events[0]), events[1..]);
    }
  }

  lemma ReachesToken(S: State, T: State)
    requires TokenInv(S) && Reaches(S, T)
    ensures TokenInv(T)
  {
    hide TokenInv, CanPlay, Play;
    var events :| Finishing(events) && CanPlay(S, events) && Play(S, events) == T;
    PlayToken(S, events);
  }

  // ----- a copy to its end

  predicate CanCopy(S: State, s: nat, n: nat) {
    && Running(S) && s < |S| && S[s].phase.Copying? && S[s].phase.k + n <= MR_SIZE
    && S[s].phase.to < |S| && S[s].phase.to != s && |S[s].mr| == |S[S[s].phase.to].mr| == MR_SIZE
  }

  function Overlaid(under: seq<Register>, over: seq<Register>, k: nat, n: nat): (r: seq<Register>)
    requires |under| == |over| == MR_SIZE && k + n <= MR_SIZE
    ensures |r| == MR_SIZE
  {
    under[..k] + over[k..k + n] + under[k + n..]
  }

  function AfterCopies(S: State, s: nat, n: nat): State
    requires CanCopy(S, s, n)
  {
    var (to, k) := (S[s].phase.to, S[s].phase.k);
    S[s := S[s].(phase := Copying(to, k + n))][to := S[to].(mr := Overlaid(S[to].mr, S[s].mr, k, n))]
  }

  /** The next registers of a copy, one by one. */
  lemma {:induction false} Copies(S: State, s: nat, n: nat)
    requires CanCopy(S, s, n)
    ensures Reaches(S, AfterCopies(S, s, n))
    decreases n
  {
    var to, k := S[s].phase.to, S[s].phase.k;
    if n == 0 {
      assert Overlaid(S[to].mr, S[s].mr, k, 0) == S[to].mr;
      assert AfterCopies(S, s, 0) == S;
      Stay(S);
    } else {
      var T := Step(S, CopyRegister(s));
      assert Overlaid(T[to].mr, S[s].mr, k + 1, n - 1) == Overlaid(S[to].mr, S[s].mr, k, n);
      assert AfterCopies(T, s, n - 1) == AfterCopies(S, s, n);
      Go(S, CopyRegister(s));
      Copies(T, s, n - 1);
      hide Reaches, Step;
      Then(S, T, AfterCopies(S, s, n));
    }
  }

  /** The registers of `p` once the sender `s` is done. */
  function Arriving(S: State, s: nat, p: nat): seq<Register>
    requires s < |S| && p < |S| && |S[s].mr| == |S[p].mr| == MR_SIZE && CopiedSoFar(S[s].phase) <= MR_SIZE
  {
    var k := CopiedSoFar(S[s].phase);
    Overlaid(S[p].mr, S[s].mr, k, MR_SIZE - k)
  }

  predicate CanSend(S: State, s: nat, p: nat) {
    && Running(S) && s < |S| && p < |S| && s != p && |S[s].mr| == |S[p].mr| == MR_SIZE
    && Writing(S[s].phase, p) && CopiedSoFar(S[s].phase) <= MR_SIZE
    && (S[s].phase.Copying? ==> S[p].sender == s)
    && S[p].f == Sem(0, if S[p].phase.WaitingFull? then [p] else [])
  }

  /** The receiver after the signal. */
  function Signalled(S: State, s: nat, p: nat): Thread
    requires CanSend(S, s, p)
  {
    var th := S[p].(mr := Arriving(S, s, p), sender := s);
    if th.phase.WaitingFull? then th.(f := Sem(0, []), token := Reader, phase := GotFull(th.phase.from))
    else th.(f := Sem(1, []), token := Full)
  }

  lemma SendOut(S: State, s: nat, p: nat)
    requires CanSend(S, s, p)
    ensures Reaches(S, S[s := S[s].(phase := Idle)][p := Signalled(S, s, p)])
  {
    if S[s].phase.GotRoom? {
      var T := Step(S, SetSender(s));
      Go(S, SetSender(s));
      FinishCopy(T, s, p);
      assert T[s := T[s].(phase := Idle)][p := Signalled(T, s, p)] == S[s := S[s].(phase := Idle)][p := Signalled(S, s, p)];
      hide Reaches, Step;
      Then(S, T, S[s := S[s].(phase := Idle)][p := Signalled(S, s, p)]);
    } else {
      FinishCopy(S, s, p);
    }
  }

  lemma FinishCopy(S: State, s: nat, p: nat)
    requires CanSend(S, s, p) && S[s].phase.Copying?
    ensures Reaches(S, S[s := S[s].(phase := Idle)][p := Signalled(S, s, p)])
  {
    var n := MR_SIZE - S[s].phase.k;
    var T := AfterCopies(S, s, n);
    Copies(S, s, n);
    assert Enabled(T, SendDone(s)) && [p][1..] == [];
    assert T[p].mr == Arriving(S, s, p);
    assert Step(T, SendDone(s)) == S[s := S[s].(phase := Idle)][p := Signalled(S, s, p)];
    hide Reaches, Step;
    ThenGo(S, T, SendDone(s));
  }

  // ----- a delivery taken and stored

  predicate Storable(tag: Register) {
    2 <= Length(tag) <= MR_SIZE
  }

  /** The receiver has its delivery in its registers and can take it from anyone, or from who sent it. */
  predicate CanTake(S: State, r: nat) {
    && Running(S) && r < |S| && |S[r].mr| == MR_SIZE && Storable(S[r].mr[0])
    && var th := S[r];
       || (th.phase == Idle && th.f == Sem(1, []))
       || (th.f == Sem(0, []) && th.token == Reader && Reading(th.phase) && TakesFrom(th, th.sender))
  }

  predicate TakesFrom(th: Thread, s: nat) {
    match th.phase
    case Idle => true
    case WaitingFull(from) => from == None || from == Some(s)
    case GotFull(from) => from == None || from == Some(s)
    case Received => true
    case Storing(out) => th.mr != [] && 0 < |out| <= Length(th.mr[0]) && out <= th.mr
    case _ => false
  }

  /** Everything read, and the signal to follow. */
  function Taken(S: State, r: nat): State
    requires CanTake(S, r)
  {
    S[r := S[r].(phase := Storing(S[r].mr[..Length(S[r].mr[0])]), f := Sem(0, []), token := Reader)]
  }

  lemma {:induction false} ReadRest(S: State, r: nat, n: nat)
    requires Running(S) && r < |S| && |S[r].mr| == MR_SIZE && Length(S[r].mr[0]) <= MR_SIZE
    requires S[r].phase.Storing? && 0 < |S[r].phase.out| && S[r].phase.out <= S[r].mr
    requires |S[r].phase.out| + n == Length(S[r].mr[0])
    ensures Reaches(S, S[r := S[r].(phase := Storing(S[r].mr[..Length(S[r].mr[0])]))])
    decreases n
  {
    var out, all := S[r].phase.out, S[r].mr[..Length(S[r].mr[0])];
    var U := S[r := S[r].(phase := Storing(all))];
    if n == 0 {
      assert out == all;
      assert U == S;
      Stay(S);
    } else {
      var T := Step(S, StoreRegister(r));
      assert out + [S[r].mr[|out|]] <= S[r].mr;
      Go(S, StoreRegister(r));
      ReadRest(T, r, n - 1);
      assert T[r := T[r].(phase := Storing(all))] == U;
      hide Reaches, Step;
      Then(S, T, U);
    }
  }

  lemma ReadReceived(S: State, r: nat)
    requires CanTake(S, r) && S[r].phase == Received
    ensures Reaches(S, Taken(S, r))
  {
    var T := Step(S, StoreTag(r));
    assert T[r].phase == Storing([S[r].mr[0]]) && [S[r].mr[0]] <= S[r].mr;
    Go(S, StoreTag(r));
    ReadRest(T, r, Length(S[r].mr[0]) - 1);
    assert T[r := T[r].(phase := Storing(S[r].mr[..Length(S[r].mr[0])]))] == Taken(S, r);
    hide Reaches, Step;
    Then(S, T, Taken(S, r));
  }

  lemma ReadDelivered(S: State, r: nat)
    requires CanTake(S, r) && S[r].phase.GotFull?
    ensures Reaches(S, Taken(S, r))
  {
    var T := Step(S, CheckMessage(r));
    assert T == S[r := S[r].(phase := Received)];
    Go(S, CheckMessage(r));
    ReadReceived(T, r);
    assert Taken(T, r) == Taken(S, r);
    hide Reaches, Step;
    Then(S, T, Taken(S, r));
  }

  lemma ReadAll(S: State, r: nat)
    requires CanTake(S, r)
    ensures Reaches(S, Taken(S, r))
  {
    if S[r].phase == Idle {
      var T := Step(S, ReceiveCall(r, None));
      assert T == S[r := S[r].(f := Sem(0, []), phase := GotFull(None), token := Reader)];
      Go(S, ReceiveCall(r, None));
      ReadDelivered(T, r);
      assert Taken(T, r) == Taken(S, r);
      hide Reaches, Step;
      Then(S, T, Taken(S, r));
    } else if S[r].phase.GotFull? {
      ReadDelivered(S, r);
    } else if S[r].phase == Received {
      ReadReceived(S, r);
    } else {
      ReadRest(S, r, Length(S[r].mr[0]) - |S[r].phase.out|);
      assert S[r := S[r].(phase := Storing(S[r].mr[..Length(S[r].mr[0])]))] == Taken(S, r);
    }
  }

  /** What the receiver stores is what its registers hold. */
  lemma StoreAll(S: State, r: nat)
    requires CanTake(S, r)
    ensures Enabled(Taken(S, r), StoreDone(r)) && Reaches(S, AfterStoreDone(Taken(S, r), r))
    ensures AfterStoreDone(Taken(S, r), r)[r].stored
         == S[r].stored + [Delivery(S[r].sender, S[r].mr[..Length(S[r].mr[0])])]
    ensures S[r].granted <= AfterStoreDone(Taken(S, r), r)[r].granted
  {
    var T := Taken(S, r);
    assert Enabled(T, StoreDone(r));
    assert Step(T, StoreDone(r)) == AfterStoreDone(T, r);
    ReadAll(S, r);
    hide Reaches, Step;
    ThenGo(S, T, StoreDone(r));
  }

  /** A delivery that differs from the message let in is stored as it is. */
  lemma StoresWrong(S: State, r: nat) returns (T: State)
    requires CanTake(S, r) && |S[r].granted| == |S[r].stored| + 1
    requires S[r].mr[..Length(S[r].mr[0])] != S[r].granted[|S[r].stored|].msg
    ensures Reaches(S, T) && |T| == |S| && !(T[r].stored <= T[r].granted)
  {
    StoreAll(S, r);
    T := AfterStoreDone(Taken(S, r), r);
    var n := |S[r].stored|;
    assert T[r].stored[n].msg == S[r].mr[..Length(S[r].mr[0])];
    assert T[r].granted[n] == S[r].granted[n];
  }

  // ----- the senders that wait, one after the other

  /** The delivery under way to `p` can be taken: the receiver waits for this sender, for anyone or not
      yet, and the message is neither empty nor too long. */
  predicate Accepts(S: State, p: nat)
    requires p < |S|
  {
    match S[p].token
    case Writer(s) => CanSend(S, s, p) && TakesFrom(S[p], s) && !Reading(S[p].phase) && Storable(Arriving(S, s, p)[0])
    case Full => CanTake(S, p)
    case Reader => CanTake(S, p)
    case _ => false
  }

  function MessageOf(th: Thread): Message {
    if th.loaded.Some? then th.loaded.value else []
  }

  /** Thread `w` has been let in to `p`, and nothing changed for the threads that still wait. */
  ghost predicate LetIn(S: State, T: State, p: nat, w: nat) {
    && p < |S| == |T| && w < |S| && w != p && S[p].e.waiters != [] && Running(T)
    && T[p].phase == Idle && T[p].token == Writer(w) && T[p].e.waiters == S[p].e.waiters[1..]
    && |T[p].stored| == |S[p].stored| + 1 && T[p].granted == S[p].granted + [Delivery(w, MessageOf(S[w]))]
    && T[w] == S[w].(phase := GotRoom(p))
    && forall x: nat | x < |S| && x != p && x != w && S[x].phase.WaitingRoom? :: T[x] == S[x]
  }

  lemma StoreLetsIn(S: State, p: nat, w: nat) returns (T: State)
    requires CanTake(S, p) && S[p].e.waiters != [] && w == S[p].e.waiters[0] && w < |S| && w != p
    ensures Reaches(S, T) && LetIn(S, T, p, w)
  {
    StoreAll(S, p);
    hide Reaches, CanTake;
    T := AfterStoreDone(Taken(S, p), p);
    assert T[w] == S[w].(phase := GotRoom(p));
    assert Running(T);
  }

  lemma SentTaken(S: State, s: nat, p: nat) returns (U: State)
    requires p < |S| && S[p].token == Writer(s) && Accepts(S, p)
    ensures Reaches(S, U) && |U| == |S| && CanTake(U, p) && U[p].mr == Arriving(S, s, p)
    ensures U[p].e == S[p].e && U[p].granted == S[p].granted && U[p].stored == S[p].stored
    ensures forall x: nat | x < |S| && x != p && S[x].phase.WaitingRoom? :: U[x] == S[x]
  {
    U := S[s := S[s].(phase := Idle)][p := Signalled(S, s, p)];
    SendOut(S, s, p);
    hide Reaches;
    assert Running(U);
  }

  /** The delivery under way is stored, and the first waiting sender is let in. */
  lemma Settle(S: State, p: nat, w: nat) returns (T: State)
    requires p < |S| && Accepts(S, p) && S[p].e.waiters != [] && w == S[p].e.waiters[0]
    requires w < |S| && w != p && S[w].phase == WaitingRoom(p)
    ensures Reaches(S, T) && LetIn(S, T, p, w)
  {
    hide CanSend, CanTake, Reaches;
    if S[p].token.Writer? {
      var U := SentTaken(S, S[p].token.holder, p);
      T := StoreLetsIn(U, p, w);
      Then(S, U, T);
    } else {
      T := StoreLetsIn(S, p, w);
    }
  }

  /** The senders before place `i` wait with messages that can be taken. */
  predicate AheadStorable(S: State, p: nat, i: nat)
    requires p < |S| && i <= |S[p].e.waiters|
  {
    forall j | 0 <= j < i ::
      S[p].e.waiters[j] < |S| && S[S[p].e.waiters[j]].mr != [] && Storable(S[S[p].e.waiters[j]].mr[0])
  }

  lemma NextAccepted(S: State, T: State, p: nat, i: nat)
    requires p < |S| && TokenOk(S, p) && 0 < i < |S[p].e.waiters| && AheadStorable(S, p, i)
    requires LetIn(S, T, p, S[p].e.waiters[0]) && TokenOk(T, p) && TokenOk(T, S[p].e.waiters[0])
    ensures Accepts(T, p) && AheadStorable(T, p, i - 1)
    ensures S[p].e.waiters[i] < |S| && T[p].e.waiters[i - 1] == S[p].e.waiters[i] && T[S[p].e.waiters[i]] == S[S[p].e.waiters[i]]
  {
    var q := S[p].e.waiters;
    assert forall j | 0 <= j < |q| :: q[j] in q;
    assert forall j | 0 <= j < i :: T[p].e.waiters[j] == q[j + 1] && T[q[j + 1]] == S[q[j + 1]];
  }

  /** A waiting sender is let in once those before it have been served, if their messages can be taken. */
  lemma {:induction false} Serve(S: State, p: nat, i: nat, w: nat) returns (T: State)
    requires TokenInv(S) && p < |S| && Accepts(S, p) && |S[p].granted| == |S[p].stored| + 1
    requires i < |S[p].e.waiters| && S[p].e.waiters[i] == w && AheadStorable(S, p, i)
    ensures Reaches(S, T) && |T| == |S| && Running(T) && TokenInv(T) && w < |S| && w != p
    ensures T[p].phase == Idle && T[p].token == Writer(w) && T[w] == S[w].(phase := GotRoom(p))
    ensures |T[p].granted| == |T[p].stored| + 1 && T[p].granted[|T[p].stored|] == Delivery(w, MessageOf(S[w]))
    decreases i
  {
    assert TokenOk(S, p);
    var v := S[p].e.waiters[0];
    assert v in S[p].e.waiters;
    var U := Settle(S, p, v);
    ReachesToken(S, U);
    assert TokenOk(U, p) && TokenOk(U, v);
    hide Reaches, TokenOk, Accepts, AheadStorable;
    if i == 0 {
      T := U;
    } else {
      NextAccepted(S, U, p, i);
      hide TokenInv;
      T := Serve(U, p, i - 1, w);
      Then(S, U, T);
    }
  }
}
