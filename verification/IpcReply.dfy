/** Requests and replies: one client and one server that take turns keep to the discipline, whatever the
    interleaving, so that every request and every reply is stored as it was loaded. */
module IpcReply {
  import opened Semaphore
  import opened Ipc
  import opened IpcDelivery
  import opened Prelude

  datatype Kind = ToLoad | ToSend | ToReceive

  predicate IsCall(e: Event) {
    e.Load? || e.SendCall? || e.ReceiveCall?
  }

  function KindOf(e: Event): Kind
    requires IsCall(e)
  {
    match e
    case Load(_, _) => ToLoad
    case SendCall(_, _) => ToSend
    case ReceiveCall(_, _) => ToReceive
  }

  function Following(k: Kind): Kind {
    match k
    case ToLoad => ToSend
    case ToSend => ToReceive
    case ToReceive => ToLoad
  }

  /** The call thread `t` has to make next, after `n` events: the calls go round, beginning with `first`. */
  function Due(events: seq<Event>, n: nat, t: nat, first: Kind): Kind
    requires n <= |events|
  {
    if n == 0 then first
    else if IsCall(events[n - 1]) && events[n - 1].t == t then Following(KindOf(events[n - 1]))
    else Due(events, n - 1, t, first)
  }

  predicate InTurn(e: Event, t: nat, due: Kind, to: nat) {
    IsCall(e) && e.t == t ==> KindOf(e) == due && (e.SendCall? ==> e.to == to)
  }

  /** Only the client and the server act. The client loads, sends to the server and receives, and so on; the
      server receives, loads and sends to the client, and so on. */
  predicate TakeTurns(events: seq<Event>, client: nat, server: nat) {
    forall i | 0 <= i < |events| ::
      && (events[i].t == client || events[i].t == server)
      && InTurn(events[i], client, Due(events, i, client, ToLoad), server)
      && InTurn(events[i], server, Due(events, i, server, ToReceive), client)
  }

  // ----- whose turn it is

  /** The thread is to receive, or has called to receive already. */
  predicate Awaits(th: Thread, due: Kind) {
    (due == ToReceive && th.phase == Idle) || (due == ToLoad && th.phase.WaitingFull?)
  }

  /** `x` is to load and send to `y`. */
  predicate Preparing(x: Thread, y: Thread, dx: Kind, dy: Kind) {
    && x.token == Room && y.token == Room && x.phase == Idle && Awaits(y, dy)
    && (dx == ToLoad || (dx == ToSend && Ready(x)))
  }

  /** The message of `x` is being copied. */
  predicate Crossing(S: State, x: nat, y: nat, dx: Kind, dy: Kind)
    requires x < |S| && y < |S|
  {
    && S[x].token == Room && S[y].token == Writer(x) && Writing(S[x].phase, y) && Awaits(S[y], dy)
    && dx == ToReceive
  }

  /** `y` has the message of `x`, unread or in hand. */
  predicate Arrived(x: Thread, y: Thread, dx: Kind, dy: Kind) {
    && x.token == Room && Awaits(x, dx)
    && ((y.token == Full && y.phase == Idle && dy == ToReceive) || (y.token == Reader && Reading(y.phase) && dy == ToLoad))
  }

  predicate Turn(S: State, x: nat, y: nat, dx: Kind, dy: Kind)
    requires x < |S| && y < |S|
  {
    Preparing(S[x], S[y], dx, dy) || Crossing(S, x, y, dx, dy) || Arrived(S[x], S[y], dx, dy)
  }

  predicate OthersIdle(S: State, x: nat, y: nat) {
    forall z: nat | z < |S| && z != x && z != y :: S[z].phase == Idle
  }

  function Next(e: Event, t: nat, due: Kind): Kind {
    if IsCall(e) && e.t == t then Following(KindOf(e)) else due
  }

  /** What holds of a step of `x` or `y` in their turns. */
  predicate Fits(S: State, e: Event, x: nat, y: nat, dx: Kind, dy: Kind) {
    && Enabled(S, e) && x < |S| && y < |S| && x != y && (e.t == x || e.t == y)
    && InTurn(e, x, dx, y) && InTurn(e, y, dy, x)
  }

  lemma PreparingStep(S: State, e: Event, x: nat, y: nat, dx: Kind, dy: Kind)
    requires Fits(S, e, x, y, dx, dy) && TokenOk(S, x) && TokenOk(S, y) && Preparing(S[x], S[y], dx, dy)
    ensures Disciplined(S, e)
    ensures Running(Step(S, e)) ==> Turn(Step(S, e), x, y, Next(e, x, dx), Next(e, y, dy))
    ensures forall z: nat | z < |S| && z != x && z != y :: Step(S, e)[z] == S[z]
  {
    if e.Load? {
      assert e.m <= Step(S, e)[e.t].mr;
    }
  }

  lemma CrossingStep(S: State, e: Event, x: nat, y: nat, dx: Kind, dy: Kind)
    requires Fits(S, e, x, y, dx, dy) && TokenOk(S, x) && TokenOk(S, y) && Crossing(S, x, y, dx, dy)
    ensures Disciplined(S, e)
    ensures Running(Step(S, e)) ==> Turn(Step(S, e), x, y, Next(e, x, dx), Next(e, y, dy))
    ensures forall z: nat | z < |S| && z != x && z != y :: Step(S, e)[z] == S[z]
  {
  }

  lemma ArrivedStep(S: State, e: Event, x: nat, y: nat, dx: Kind, dy: Kind)
    requires Fits(S, e, x, y, dx, dy) && TokenOk(S, x) && TokenOk(S, y) && Arrived(S[x], S[y], dx, dy)
    requires S[y].e.waiters == []
    ensures Disciplined(S, e)
    ensures var S' := Step(S, e);
      Running(S') ==>
        Turn(S', x, y, Next(e, x, dx), Next(e, y, dy)) || Turn(S', y, x, Next(e, y, dy), Next(e, x, dx))
    ensures forall z: nat | z < |S| && z != x && z != y :: Step(S, e)[z] == S[z]
  {
  }

  /** One step in turn is disciplined, and leaves it at one's turn or the other's, unless the kernel stops. */
  lemma TurnStep(S: State, e: Event, x: nat, y: nat, dx: Kind, dy: Kind)
    requires Fits(S, e, x, y, dx, dy) && TokenInv(S) && Turn(S, x, y, dx, dy) && OthersIdle(S, x, y)
    ensures Disciplined(S, e)
    ensures var S' := Step(S, e);
      Running(S') ==>
        && OthersIdle(S', x, y)
        && (Turn(S', x, y, Next(e, x, dx), Next(e, y, dy)) || Turn(S', y, x, Next(e, y, dy), Next(e, x, dx)))
  {
    assert TokenOk(S, x) && TokenOk(S, y);
    if Preparing(S[x], S[y], dx, dy) {
      PreparingStep(S, e, x, y, dx, dy);
    } else if Crossing(S, x, y, dx, dy) {
      CrossingStep(S, e, x, y, dx, dy);
    } else {
      NobodyWaits(S, x, y, dx, dy);
      ArrivedStep(S, e, x, y, dx, dy);
    }
    hide Enabled, Step, Disciplined, Preparing, Crossing, Arrived, TokenOk, Turn, Fits;
  }

  lemma NobodyWaits(S: State, x: nat, y: nat, dx: Kind, dy: Kind)
    requires x < |S| && y < |S| && x != y && TokenOk(S, y) && OthersIdle(S, x, y) && Arrived(S[x], S[y], dx, dy)
    ensures S[y].e.waiters == []
  {
    EmptyOrMember(S[y].e.waiters);
  }

  // ----- runs

  ghost predicate AtTurn(S: State, events: seq<Event>, n: nat, client: nat, server: nat) {
    && n <= |events| && client < |S| && server < |S| && client != server
    && (Running(S) ==>
          && OthersIdle(S, client, server)
          && var dx, dy := Due(events, n, client, ToLoad), Due(events, n, server, ToReceive);
             Turn(S, client, server, dx, dy) || Turn(S, server, client, dy, dx))
  }

  lemma AtTurnStep(S: State, events: seq<Event>, n: nat, client: nat, server: nat)
    requires TakeTurns(events, client, server) && n < |events| && Enabled(S, events[n]) && TokenInv(S)
    requires AtTurn(S, events, n, client, server)
    ensures Disciplined(S, events[n]) && AtTurn(Step(S, events[n]), events, n + 1, client, server)
  {
    var e := events[n];
    var dx, dy := Due(events, n, client, ToLoad), Due(events, n, server, ToReceive);
    assert Running(S);
    assert Fits(S, e, client, server, dx, dy) && Fits(S, e, server, client, dy, dx);
    assert Due(events, n + 1, client, ToLoad) == Next(e, client, dx);
    assert Due(events, n + 1, server, ToReceive) == Next(e, server, dy);
    hide Enabled, Step, Disciplined, Turn, Fits, Running, Due;
    if Turn(S, client, server, dx, dy) {
      TurnStep(S, e, client, server, dx, dy);
    } else {
      TurnStep(S, e, server, client, dy, dx);
    }
  }

  lemma {:induction false} TurnsHold(run: seq<State>, events: seq<Event>, client: nat, server: nat, n: nat)
    requires IsRun(run, events) && TakeTurns(events, client, server) && n < |run|
    requires client < |run[0]| && server < |run[0]| && client != server
    ensures AtTurn(run[n], events, n, client, server)
  {
    if n > 0 {
      TurnsHold(run, events, client, server, n - 1);
      RunToken(run, events, n - 1);
      hide Enabled, Step, AtTurn, TokenInv;
      AtTurnStep(run[n - 1], events, n - 1, client, server);
    }
  }

  /** In every interleaving of a client and a server that take turns, what either has stored is what was let in to
      it, message for message and in that order, but for at most one still on its way. */
  lemma RepliesDelivered(run: seq<State>, events: seq<Event>, client: nat, server: nat, n: nat, r: nat)
    requires IsRun(run, events) && TakeTurns(events, client, server) && n < |run| && r < |run[n]|
    requires client < |run[0]| && server < |run[0]| && client != server
    ensures AllDisciplined(run, events)
    ensures run[n][r].stored <= run[n][r].granted
    ensures |run[n][r].granted| <= |run[n][r].stored| + 1
    ensures run[n][r].e.count == 1 ==> run[n][r].stored == run[n][r].granted
  {
    forall i | 0 <= i < |events| ensures Disciplined(run[i], events[i]) {
      TurnsHold(run, events, client, server, i);
      RunToken(run, events, i);
      hide Step, AtTurn, TokenInv;
      AtTurnStep(run[i], events, i, client, server);
    }
    DeliveryLaw(run, events, n, r);
  }
}
