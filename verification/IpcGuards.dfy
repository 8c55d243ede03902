/** The discipline of IpcDelivery is exact: where a guard fails, some message makes a receiver store, or
    a sender send, what was never loaded for it. */
module IpcGuards {
  import opened Semaphore
  import opened Ipc
  import opened IpcDelivery
  import opened IpcFinish
  import opened Prelude

  /** What is promised of a thread: it has stored what was let in to it, in order, but for one delivery;
      that one, once delivered, stands in its registers; and what it has still to send does too. */
  ghost predicate IntactAt(S: State, r: nat)
    requires r < |S|
  {
    var th := S[r];
    && th.stored <= th.granted && |th.granted| <= |th.stored| + 1
    && (th.f.count == 1 || Reading(th.phase) ==>
          && |th.granted| == |th.stored| + 1
          && var d := th.granted[|th.stored|];
             IsMessage(d.msg) && d.msg <= th.mr && th.sender == d.sender)
    && (Sending(th.phase) ==>
          && th.loaded.Some? && |th.loaded.value| <= |th.mr|
          && forall j | CopiedSoFar(th.phase) <= j < |th.loaded.value| :: th.mr[j] == th.loaded.value[j])
  }

  ghost predicate Intact(S: State) {
    forall r: nat | r < |S| :: IntactAt(S, r)
  }

  /** However the deliveries under way are finished, nothing is destroyed. */
  ghost predicate Safe(S: State) {
    forall T | Reaches(S, T) :: Intact(T)
  }

  /** However they are finished, only what was let in is stored. */
  ghost predicate Faithful(S: State) {
    forall T: State, r: nat | Reaches(S, T) && r < |T| :: T[r].stored <= T[r].granted
  }

  lemma InvIntact(S: State)
    requires Inv(S)
    ensures Intact(S)
  {
    forall r: nat | r < |S| ensures IntactAt(S, r) {
      assert TokenOk(S, r) && DataOk(S, r);
    }
  }

  lemma InvSafe(S: State)
    requires Inv(S)
    ensures Safe(S) && Faithful(S)
  {
    hide Inv, Reaches;
    forall T | Reaches(S, T) ensures Intact(T) {
      ReachesInv(S, T);
      InvIntact(T);
    }
    forall T: State, r: nat | Reaches(S, T) && r < |T| ensures T[r].stored <= T[r].granted {
      assert Intact(T) && IntactAt(T, r);
    }
  }

  /** A message with register `k` unlike that of `msg`. */
  function Clash(msg: Message, k: nat): (m: Message)
    requires k < |msg| <= MR_SIZE
    ensures IsMessage(m) && k < |m| && m[k] != msg[k] && Storable(m[0])
  {
    var other := if msg[k] == 0 then 1 else 0;
    if k == 0 then (if msg[0] == 1 then [2, 0, 0] else [1, 0])
    else [63] + seq(63, _ => other)
  }

  // ----- loading

  /** Where the guard on loading fails, a message can be loaded that the thread then stores in place of
      the one let in to it. */
  lemma LoadStoresWrong(S: State, t: nat) returns (m: Message, T: State)
    requires Inv(S) && Running(S) && t < |S| && S[t].phase == Idle && !LoadHarmless(S, t)
    ensures Enabled(S, Load(t, m)) && Reaches(Step(S, Load(t, m)), T)
    ensures |T| == |S| && !(T[t].stored <= T[t].granted)
  {
    assert TokenOk(S, t) && DataOk(S, t);
    var d := S[t].granted[|S[t].stored|];
    m := Clash(d.msg, 0);
    var L := Step(S, Load(t, m));
    assert L == S[t := S[t].(mr := m + S[t].mr[|m|..], loaded := Some(m))];
    if S[t].token.Writer? {
      var s := S[t].token.holder;
      assert TokenOk(S, s) && DataOk(S, s);
      assert CanSend(L, s, t);
      var U := L[s := L[s].(phase := Idle)][t := Signalled(L, s, t)];
      SendOut(L, s, t);
      assert U[t].mr[0] == m[0];
      T := StoresWrong(U, t);
      hide Reaches, Step;
      Then(L, U, T);
    } else {
      T := StoresWrong(L, t);
    }
  }

  /** Loading is safe, whatever the message, exactly when the guard on it holds. */
  lemma LoadGuardExact(S: State, t: nat)
    requires Inv(S) && Running(S) && t < |S| && S[t].phase == Idle
    ensures LoadHarmless(S, t) <==> forall m | Enabled(S, Load(t, m)) :: Faithful(Step(S, Load(t, m)))
  {
    hide Inv, Enabled, Step, Reaches;
    if LoadHarmless(S, t) {
      forall m | Enabled(S, Load(t, m)) ensures Faithful(Step(S, Load(t, m))) {
        DataStep(S, Load(t, m));
        InvSafe(Step(S, Load(t, m)));
      }
    } else {
      var m, T := LoadStoresWrong(S, t);
      assert !Faithful(Step(S, Load(t, m)));
    }
  }

  // ----- sending

  /** The guard on sending, as the invariant has it. */
  lemma SendKeepsExact(S: State, t: nat, to: nat)
    requires Inv(S) && Enabled(S, SendCall(t, to))
    ensures Ready(S[t]) && LetInHarmless(S, to) <==> Inv(Step(S, SendCall(t, to)))
  {
    var S' := Step(S, SendCall(t, to));
    if Ready(S[t]) && LetInHarmless(S, to) {
      DataStep(S, SendCall(t, to));
    } else {
      assert TokenOk(S, to) && DataOk(S, t);
      assert !SourceOk(S', t) || !SourceOk(S', to);
      assert !DataOk(S', t) || !DataOk(S', to);
    }
  }

  function LoadSend(S: State, t: nat, m: Message, to: nat): State
    requires Enabled(S, Load(t, m)) && to < |S| && to != t
  {
    Step(Step(S, Load(t, m)), SendCall(t, to))
  }

  /** A message loaded now and sent to `to` arrives, and destroys nothing. */
  predicate SendHarmless(S: State, t: nat, to: nat)
    requires t < |S| && to < |S|
  {
    S[t].e.count == 1 && LetInHarmless(S, to)
  }

  lemma AfterLoadSend(S: State, t: nat, m: Message, to: nat)
    requires TokenInv(S) && Enabled(S, Load(t, m)) && to < |S| && to != t
    ensures var U := LoadSend(S, t, m, to);
      && Running(U) && TokenInv(U) && |U| == |S|
      && U[t] == S[t].(mr := m + S[t].mr[|m|..], loaded := Some(m), phase := U[t].phase)
      && U[t].phase == (if S[to].e.count > 0 then GotRoom(to) else WaitingRoom(to))
      && (forall x: nat | x < |S| && x != t && x != to :: U[x] == S[x])
      && U[to] == S[to].(e := U[to].e, token := U[to].token, granted := U[to].granted)
      && (S[to].e.count > 0 ==> U[to].token == Writer(t) && U[to].granted == S[to].granted + [Delivery(t, m)])
  {
    TokenStep(S, Load(t, m));
    TokenStep(Step(S, Load(t, m)), SendCall(t, to));
    hide TokenInv;
  }

  /** A load over a delivery, and then a send: the delivery arrives with a wrong tag. */
  lemma SendOverUnread(S: State, t: nat, to: nat) returns (m: Message, T: State)
    requires Inv(S) && Enabled(S, SendCall(t, to)) && !LoadHarmless(S, t)
    ensures Enabled(S, Load(t, m)) && Reaches(LoadSend(S, t, m, to), T) && !Intact(T)
  {
    assert TokenOk(S, t) && DataOk(S, t);
    var d := S[t].granted[|S[t].stored|];
    m := Clash(d.msg, 0);
    AfterLoadSend(S, t, m, to);
    var U := LoadSend(S, t, m, to);
    if S[t].token.Writer? {
      var s := S[t].token.holder;
      assert TokenOk(S, s) && DataOk(S, s);
      assert CanSend(U, s, t);
      T := U[s := U[s].(phase := Idle)][t := Signalled(U, s, t)];
      SendOut(U, s, t);
    } else {
      T := U;
      Stay(U);
    }
    assert T[t].mr[0] == m[0] && T[t].f.count == 1;
    assert !IntactAt(T, t);
  }

  lemma CopyFirst(S: State, s: nat, p: nat, n: nat) returns (T: State)
    requires CanSend(S, s, p) && CopiedSoFar(S[s].phase) == 0 && n <= MR_SIZE
    ensures Reaches(S, T) && |T| == |S| && Running(T)
    ensures T[p] == S[p].(mr := Overlaid(S[p].mr, S[s].mr, 0, n), sender := s)
    ensures T[s] == S[s].(phase := Copying(p, n))
    ensures forall x: nat | x < |S| && x != s && x != p :: T[x] == S[x]
  {
    var U := SenderSet(S, s, p);
    hide Reaches, CanSend;
    T := AfterCopies(U, s, n);
    Copies(U, s, n);
    assert Running(T);
    Then(S, U, T);
  }

  lemma SenderSet(S: State, s: nat, p: nat) returns (T: State)
    requires CanSend(S, s, p) && CopiedSoFar(S[s].phase) == 0
    ensures Reaches(S, T) && Running(T) && T == S[s := S[s].(phase := Copying(p, 0))][p := S[p].(sender := s)]
    ensures s < |S| && p < |S| && s != p && |S[s].mr| == |S[p].mr| == MR_SIZE
  {
    if S[s].phase.GotRoom? {
      T := Step(S, SetSender(s));
      Go(S, SetSender(s));
    } else {
      T := S;
      Stay(S);
      assert S == S[s := S[s].(phase := Copying(p, 0))][p := S[p].(sender := s)];
    }
    hide Reaches;
  }

  /** Somebody let in with nothing copied yet still has all of the message. */
  lemma WriterFacts(S: State, t: nat)
    requires Inv(S) && Running(S) && t < |S| && S[t].phase == Idle && LoadHarmless(S, t) && S[t].token.Writer?
    ensures S[t].granted != [] && IsMessage(S[t].granted[|S[t].granted| - 1].msg)
    ensures var s := S[t].token.holder;
      CanSend(S, s, t) && CopiedSoFar(S[s].phase) == 0 && S[s].mr[0] == S[t].granted[|S[t].granted| - 1].msg[0]
  {
    assert TokenOk(S, t) && DataOk(S, t);
    var s := S[t].token.holder;
    assert TokenOk(S, s) && DataOk(S, s);
  }

  /** A message loaded while somebody is let in is overwritten before it is sent. */
  lemma SendUnderDelivery(S: State, t: nat, to: nat) returns (m: Message, T: State)
    requires Inv(S) && Enabled(S, SendCall(t, to)) && LoadHarmless(S, t) && S[t].token.Writer?
    ensures Enabled(S, Load(t, m)) && Reaches(LoadSend(S, t, m, to), T) && !Intact(T)
    ensures |T| == |S| && Running(T) && |T[t].mr| == MR_SIZE
    ensures S[t].granted != [] && S[t].granted[|S[t].granted| - 1].msg != []
    ensures T[t].phase == LoadSend(S, t, m, to)[t].phase && m[0] != T[t].mr[0] == S[t].granted[|S[t].granted| - 1].msg[0]
    ensures to != S[t].token.holder ==> T[to] == LoadSend(S, t, m, to)[to]
  {
    WriterFacts(S, t);
    var d, s := S[t].granted[|S[t].granted| - 1], S[t].token.holder;
    m := Clash(d.msg, 0);
    assert Enabled(S, Load(t, m));
    AfterLoadSend(S, t, m, to) by { assert TokenInv(S); }
    hide LoadSend, Reaches, Inv, TokenInv;
    var U := LoadSend(S, t, m, to);
    assert CanSend(U, s, t);
    T := CopyFirst(U, s, t, 1);
    assert T[t].mr[0] == d.msg[0];
    assert !IntactAt(T, t);
  }

  lemma SenderFacts(S: State, to: nat)
    requires Inv(S) && to < |S| && S[to].e.count > 0 && Unsent(S[to])
    ensures |S[to].mr| == MR_SIZE && Ready(S[to]) && S[to].f == Sem(0, [])
  {
    assert TokenOk(S, to) && DataOk(S, to);
  }

  /** A delivery let in to a thread whose own message is still to be copied overwrites that message. */
  lemma SendOverSender(S: State, t: nat, to: nat) returns (m: Message, T: State)
    requires Inv(S) && Enabled(S, SendCall(t, to)) && S[t].token == Room && S[to].e.count > 0 && Unsent(S[to])
    ensures Enabled(S, Load(t, m)) && Reaches(LoadSend(S, t, m, to), T) && |T| == |S| && Running(T)
    ensures |m| <= MR_SIZE && S[to].loaded.Some? && CopiedSoFar(S[to].phase) < |S[to].loaded.value| <= |S[to].mr| == MR_SIZE
    ensures var k := CopiedSoFar(S[to].phase);
      && m == Clash(S[to].loaded.value, k)
      && T[to] == S[to].(mr := m[..k + 1] + S[to].mr[k + 1..], sender := t, e := T[to].e, token := T[to].token, granted := T[to].granted)
    ensures forall x: nat | x < |S| && x != t && x != to :: T[x] == S[x]
    ensures !IntactAt(T, to)
  {
    SenderFacts(S, to);
    var k := CopiedSoFar(S[to].phase);
    m := Clash(S[to].loaded.value, k);
    assert Enabled(S, Load(t, m));
    AfterLoadSend(S, t, m, to) by { assert TokenInv(S); }
    hide LoadSend, Reaches, Inv, TokenInv;
    var U := LoadSend(S, t, m, to);
    assert CanSend(U, t, to);
    T := CopyFirst(U, t, to, k + 1);
    assert Overlaid(S[to].mr, U[t].mr, 0, k + 1) == m[..k + 1] + S[to].mr[k + 1..];
  }

  /** Loading a message and sending it is safe, whatever the message, exactly if the room of the sender
      is free and nobody is let in to a thread whose own message is still to be copied. */
  lemma SendGuardExact(S: State, t: nat, to: nat)
    requires Inv(S) && Enabled(S, SendCall(t, to))
    ensures SendHarmless(S, t, to) <==> forall m | Enabled(S, Load(t, m)) :: Safe(LoadSend(S, t, m, to))
  {
    assert TokenOk(S, t) && TokenOk(S, to);
    if SendHarmless(S, t, to) {
      forall m | Enabled(S, Load(t, m)) ensures Safe(LoadSend(S, t, m, to)) {
        SendSafe(S, t, m, to);
      }
    } else {
      var m, T;
      if !LoadHarmless(S, t) {
        m, T := SendOverUnread(S, t, to);
      } else if S[t].token.Writer? {
        m, T := SendUnderDelivery(S, t, to);
      } else {
        m, T := SendOverSender(S, t, to);
      }
      assert !Safe(LoadSend(S, t, m, to));
    }
  }

  lemma SendSafe(S: State, t: nat, m: Message, to: nat)
    requires Inv(S) && Enabled(S, Load(t, m)) && to < |S| && to != t && SendHarmless(S, t, to)
    ensures Safe(LoadSend(S, t, m, to))
  {
    assert TokenOk(S, t);
    var L := Step(S, Load(t, m));
    assert Ready(L[t]) by { assert m <= L[t].mr; }
    assert Enabled(L, SendCall(t, to));
    hide Inv, TokenOk, Reaches;
    DataStep(S, Load(t, m));
    DataStep(L, SendCall(t, to));
    InvSafe(LoadSend(S, t, m, to));
  }

  // ----- what is stored in the end

  /** A delivery that arrives unlike the message let in is stored as it arrives. */
  lemma DeliversWrong(S: State, s: nat, p: nat) returns (T: State)
    requires p < |S| && S[p].token == Writer(s) && Accepts(S, p) && |S[p].granted| == |S[p].stored| + 1
    requires var R := Arriving(S, s, p); R[..Length(R[0])] != S[p].granted[|S[p].stored|].msg
    ensures Reaches(S, T) && |T| == |S| && !(T[p].stored <= T[p].granted)
  {
    hide Reaches, CanSend;
    var U := SentTaken(S, s, p);
    T := StoresWrong(U, p);
    Then(S, U, T);
  }

  /** The receiver of what `to` sends can take it: at once, or after those that wait before place `i`. */
  predicate Expected(S: State, to: nat, i: nat)
    requires to < |S|
  {
    && Sending(S[to].phase) && S[to].phase.to < |S|
    && var p := S[to].phase.to;
       if S[to].phase.WaitingRoom? then
         i < |S[p].e.waiters| && S[p].e.waiters[i] == to && AheadStorable(S, p, i) && Accepts(S, p)
       else TakesFrom(S[p], to)
  }

  /** A sender with register `k` overwritten: its receiver stores the message with that register. */
  lemma OverwrittenStored(S: State, s: nat, p: nat, k: nat) returns (T: State)
    requires CanSend(S, s, p) && S[p].token == Writer(s) && TakesFrom(S[p], s) && !Reading(S[p].phase)
    requires k == CopiedSoFar(S[s].phase) && |S[p].granted| == |S[p].stored| + 1
    requires var d := S[p].granted[|S[p].stored|];
      IsMessage(d.msg) && k < |d.msg| && Copied(S[p].mr, d.msg, k) && S[s].mr[k] != d.msg[k]
    requires k == 0 ==> Storable(S[s].mr[0])
    ensures Reaches(S, T) && |T| == |S| && !(T[p].stored <= T[p].granted)
  {
    var d, R := S[p].granted[|S[p].stored|], Arriving(S, s, p);
    assert R[k] == S[s].mr[k];
    assert k > 0 ==> R[0] == d.msg[0];
    T := DeliversWrong(S, s, p);
  }

  /** Where a delivery is let in to a thread whose own message is still to be copied, some message makes
      the receiver of that thread store what it never loaded. */
  lemma SendStoresWrong(S: State, t: nat, to: nat, i: nat) returns (m: Message, T: State)
    requires Inv(S) && Enabled(S, SendCall(t, to)) && S[t].token == Room && S[to].e.count > 0 && Unsent(S[to])
    requires Expected(S, to, i)
    ensures Enabled(S, Load(t, m)) && Reaches(LoadSend(S, t, m, to), T) && |T| == |S|
    ensures var p := S[to].phase.to; !(T[p].stored <= T[p].granted)
  {
    var U;
    m, U := SendOverSender(S, t, to);
    var L := LoadSend(S, t, m, to);
    AfterLoadSend(S, t, m, to);
    assert TokenOk(S, to) && DataOk(S, to);
    hide Reaches, LoadSend, TokenOk, DataOk;
    if S[to].phase.WaitingRoom? {
      T := WaitingStoresWrong(S, L, U, t, to, i);
    } else {
      T := CopyingStoresWrong(S, U, t, to);
    }
    Then(L, U, T);
  }

  lemma CopyingStoresWrong(S: State, U: State, t: nat, to: nat) returns (T: State)
    requires Inv(S) && t < |S| && to < |S| && t != to && S[t].phase == Idle && S[t].token == Room
    requires !S[to].phase.WaitingRoom? && Expected(S, to, 0) && Unsent(S[to]) && Ready(S[to])
    requires |U| == |S| && Running(U) && |U[to].mr| == MR_SIZE && U[to].phase == S[to].phase
    requires var k := CopiedSoFar(S[to].phase);
      k < |S[to].loaded.value| <= MR_SIZE && U[to].mr[k] != S[to].loaded.value[k] && (k == 0 ==> Storable(U[to].mr[0]))
    requires forall x: nat | x < |S| && x != t && x != to :: U[x] == S[x]
    ensures Reaches(U, T) && |T| == |S|
    ensures var p := S[to].phase.to; !(T[p].stored <= T[p].granted)
  {
    var p := S[to].phase.to;
    assert TokenOk(S, to) && TokenOk(S, p) && DataOk(S, p) && TokenOk(S, t);
    assert U[p] == S[p];
    T := OverwrittenStored(U, to, p, CopiedSoFar(S[to].phase));
  }

  lemma WaitingStoresWrong(S: State, L: State, U: State, t: nat, to: nat, i: nat) returns (T: State)
    requires Inv(S) && t < |S| && to < |S| && t != to && S[t].phase == Idle && S[t].token == Room
    requires S[to].phase.WaitingRoom? && Expected(S, to, i) && Ready(S[to])
    requires TokenInv(L) && Reaches(L, U) && |U| == |S| && Running(U) && |U[to].mr| == MR_SIZE
    requires U[to].phase == S[to].phase && U[to].loaded == S[to].loaded
    requires U[to].mr[0] != S[to].loaded.value[0] && Storable(U[to].mr[0])
    requires forall x: nat | x < |S| && x != t && x != to :: U[x] == S[x]
    ensures Reaches(U, T) && |T| == |S|
    ensures var p := S[to].phase.to; !(T[p].stored <= T[p].granted)
  {
    var p := S[to].phase.to;
    assert TokenOk(S, to) && TokenOk(S, p) && DataOk(S, p) && TokenOk(S, t);
    ReachesToken(L, U);
    assert AheadStorable(U, p, i);
    assert Accepts(U, p);
    var V := Serve(U, p, i, to);
    assert TokenOk(V, p);
    T := OverwrittenStored(V, to, p, 0);
    hide Reaches;
    Then(U, V, T);
  }

  lemma RoomFacts(S: State, to: nat)
    requires Inv(S) && to < |S| && S[to].e.count > 0
    ensures |S[to].mr| == MR_SIZE && S[to].stored == S[to].granted && !Reading(S[to].phase) && S[to].token == Room
    ensures S[to].f == Sem(0, if S[to].phase.WaitingFull? then [to] else [])
  {
    assert TokenOk(S, to) && DataOk(S, to);
  }

  /** Where a thread loads and sends while somebody is let in to it, its receiver stores what it never
      loaded. */
  lemma SendUnderStoresWrong(S: State, t: nat, to: nat) returns (m: Message, T: State)
    requires Inv(S) && Enabled(S, SendCall(t, to)) && LoadHarmless(S, t) && S[t].token.Writer?
    requires S[to].e.count > 0 && TakesFrom(S[to], t) && S[t].granted != []
    requires var d := S[t].granted[|S[t].granted| - 1]; |d.msg| > 1
    ensures Enabled(S, Load(t, m)) && Reaches(LoadSend(S, t, m, to), T) && |T| == |S|
    ensures !(T[to].stored <= T[to].granted)
  {
    WriterFacts(S, t);
    RoomFacts(S, to);
    var U;
    m, U := SendUnderDelivery(S, t, to);
    AfterLoadSend(S, t, m, to) by { assert TokenInv(S); }
    hide Inv, TokenInv, LoadSend;
    T := OverwrittenStored(U, t, to, 0);
    hide Reaches;
    Then(LoadSend(S, t, m, to), U, T);
  }

  lemma InitialInv(S: State)
    requires IsInitial(S)
    ensures Inv(S) && Running(S)
  {
    InitialToken(S);
  }

  /** From the start, with three threads: thread 1 loads [1, 7] and is let in to thread 0, thread 2 loads
      and is let in to thread 1, and thread 0 stores a message that thread 1 never loaded. */
  lemma DeliveryToSenderCorrupts(S: State) returns (m: Message, T: State)
    requires IsInitial(S) && |S| == 3
    ensures Enabled(S, Load(1, [1, 7]))
    ensures var U := LoadSend(S, 1, [1, 7], 0);
      && U[0].granted == [Delivery(1, [1, 7])]
      && Enabled(U, Load(2, m)) && Reaches(LoadSend(U, 2, m, 1), T)
      && |T| == 3 && !(T[0].stored <= T[0].granted)
  {
    InitialInv(S);
    assert Enabled(S, Load(1, [1, 7]));
    var L := Step(S, Load(1, [1, 7]));
    DataStep(S, Load(1, [1, 7]));
    assert Ready(L[1]) by { assert [1, 7] <= L[1].mr; }
    DataStep(L, SendCall(1, 0));
    var U := LoadSend(S, 1, [1, 7], 0);
    hide Inv, Reaches;
    m, T := SendStoresWrong(U, 2, 1, 0);
  }
}
