/** A client of the buddy allocator: whatever it asks for and gives back, its calls are a history of the kind
    BuddyProvider reasons about. */
module BuddyClient {
  import opened Bits
  import opened BuddyBlocks
  import opened BuddyProvider

  /** Ask for `n` pages, or give back the block at place `i` of those held. */
  datatype Request = Ask(n: nat) | Return(i: nat)

  datatype Run = Run(base: nat, n: nat)

  ghost function Held(blocks: seq<Run>): set<nat> {
    set i, k | 0 <= i < |blocks| && k in Range(blocks[i].base, blocks[i].n) :: k
  }

  /** The blocks are what Allocate can have given, and no two overlap. */
  ghost predicate HeldOk(l: Layout, blocks: seq<Run>) {
    && (forall i | 0 <= i < |blocks| :: 0 < blocks[i].n < 2048 && InZone(l, blocks[i].base, blocks[i].n))
    && (forall i, j | 0 <= i < j < |blocks| ::
          Range(blocks[i].base, blocks[i].n) !! Range(blocks[j].base, blocks[j].n))
  }

  lemma HeldMore(l: Layout, blocks: seq<Run>, x: Run)
    requires HeldOk(l, blocks) && 0 < x.n < 2048 && InZone(l, x.base, x.n) && Range(x.base, x.n) !! Held(blocks)
    ensures HeldOk(l, blocks + [x]) && Held(blocks + [x]) == Held(blocks) + Range(x.base, x.n)
  {
    hide Range, InZone;
    var more := blocks + [x];
    assert more[|blocks|] == x && forall i | 0 <= i < |blocks| :: more[i] == blocks[i];
    forall i | 0 <= i < |blocks| ensures Range(blocks[i].base, blocks[i].n) <= Held(blocks) {
    }
    forall k | k in Range(x.base, x.n) ensures k in Held(more) {
      assert k in Range(more[|blocks|].base, more[|blocks|].n);
    }
    forall k | k in Held(blocks) ensures k in Held(more) {
      var i :| 0 <= i < |blocks| && k in Range(blocks[i].base, blocks[i].n);
      assert k in Range(more[i].base, more[i].n);
    }
  }

  lemma HeldLess(l: Layout, blocks: seq<Run>, i: nat)
    requires HeldOk(l, blocks) && i < |blocks|
    ensures var rest, x := blocks[..i] + blocks[i + 1..], blocks[i];
      HeldOk(l, rest) && Held(rest) == Held(blocks) - Range(x.base, x.n) && Range(x.base, x.n) <= Held(blocks)
  {
    hide Range, InZone;
    var rest, x := blocks[..i] + blocks[i + 1..], blocks[i];
    forall k | k in Held(rest) ensures k in Held(blocks) && k !in Range(x.base, x.n) {
      var j :| 0 <= j < |rest| && k in Range(rest[j].base, rest[j].n);
      var j' := if j < i then j else j + 1;
      assert rest[j] == blocks[j'] && k in Range(blocks[j'].base, blocks[j'].n);
    }
    forall k | k in Held(blocks) && k !in Range(x.base, x.n) ensures k in Held(rest) {
      var j :| 0 <= j < |blocks| && k in Range(blocks[j].base, blocks[j].n);
      var j' := if j < i then j else j - 1;
      assert rest[j'] == blocks[j] && k in Range(rest[j'].base, rest[j'].n);
    }
  }

  lemma HistoryMore(l: Layout, run: seq<Snapshot>, events: seq<Event>, e: Event, t: Snapshot)
    requires History(l, run, events) && Step(l, run[|events|], e, t)
    ensures History(l, run + [t], events + [e])
  {
    hide Step;
    var run', events' := run + [t], events + [e];
    forall i | 0 <= i < |events'| ensures Step(l, run'[i], events'[i], run'[i + 1]) {
      if i < |events| {
        assert run'[i] == run[i] && run'[i + 1] == run[i + 1] && events'[i] == events[i];
      }
    }
  }

  /** A request for pages: the block joins those held, if there is one. */
  method Get(p: Provider, n: nat, blocks: seq<Run>, ghost run: seq<Snapshot>, ghost events: seq<Event>)
    returns (blocks': seq<Run>, ghost run': seq<Snapshot>, ghost events': seq<Event>)
    requires Tracks(p, blocks, run, events) && 0 < n < 2048
    modifies p
    ensures Tracks(p, blocks', run', events') && p.Lay() == old(p.Lay()) && run'[0] == run[0]
  {
    var r := p.Allocate(n);
    ghost var l := p.Lay();
    blocks', run', events' := blocks, run, events;
    hide HeldOk, Held, FreeSet, Canonical, HasFreeRun, SmallestSufficient, Zeroed;
    match r {
      case Pages(base) =>
        HeldMore(l, blocks, Run(base, n));
        blocks' := blocks + [Run(base, n)];
        ghost var t := Snapshot(p.Free(), Held(blocks'));
        assert Step(l, run[|events|], Take(base, n), t);
        HistoryMore(l, run, events, Take(base, n), t);
        run', events' := run + [t], events + [Take(base, n)];
      case _ =>
    }
  }

  /** A block held is given back. */
  method Put(p: Provider, i: nat, blocks: seq<Run>, ghost run: seq<Snapshot>, ghost events: seq<Event>)
    returns (blocks': seq<Run>, ghost run': seq<Snapshot>, ghost events': seq<Event>)
    requires Tracks(p, blocks, run, events) && i < |blocks|
    modifies p
    ensures Tracks(p, blocks', run', events') && p.Lay() == old(p.Lay()) && run'[0] == run[0]
  {
    var x := blocks[i];
    ghost var l := p.Lay();
    HeldLess(l, blocks, i);
    SmallRun(p.PageToIndex(x.base), x.n);
    assert 0 < x.n && InZone(l, x.base, x.n);
    hide HeldOk, Held, FreeSet, Canonical, HoldsOversize, Zeroed;
    var panic := p.FreeRun(x.base, x.n);
    blocks' := blocks[..i] + blocks[i + 1..];
    ghost var t := Snapshot(p.Free(), Held(blocks'));
    assert Step(l, run[|events|], Give(x.base, x.n), t);
    HistoryMore(l, run, events, Give(x.base, x.n), t);
    run', events' := run + [t], events + [Give(x.base, x.n)];
  }

  lemma SmallRun(i: nat, n: nat)
    requires n < 2048
    ensures !HoldsOversize(i, n)
  {
    assert Pow2(13) == 8192;
  }

  /** The events so far are a history that ends in the provider's free blocks and the client's pages. */
  ghost predicate Tracks(p: Provider, blocks: seq<Run>, run: seq<Snapshot>, events: seq<Event>)
    reads p
  {
    && p.Valid() && HeldOk(p.Lay(), blocks) && Held(blocks) !! p.FreePages()
    && History(p.Lay(), run, events) && run[|events|] == Snapshot(p.Free(), Held(blocks))
  }

  lemma NothingYet(l: Layout, s: Snapshot)
    ensures History(l, [s], []) && Held([]) == {} && HeldOk(l, [])
  {
  }

  lemma Settled(l: Layout, blocks: seq<Run>, run: seq<Snapshot>, events: seq<Event>, before: Blocks, after: Blocks)
    requires History(l, run, events) && Canonical(l, before)
    requires |run| == |events| + 1 && run[0] == Snapshot(before, {}) && run[|events|] == Snapshot(after, Held(blocks))
    ensures Held(blocks) !! FreeSet(l, after) && Held(blocks) + FreeSet(l, after) == FreeSet(l, before)
    ensures blocks == [] ==> after == before
  {
    hide History, FreeSet, Held, Canonical;
    NothingYet(l, Snapshot(before, {}));
    HistoryConserves(l, run, events);
    if blocks == [] {
      HistoryForgotten(l, run, events, [Snapshot(before, {})], []);
    }
  }

  /** Whatever a client asks for and gives back: its pages and the free ones are apart and together those free at
      the start, and once it has given all back the free blocks are exactly those of the start. Requests that
      would stop the kernel end the calls. */
  method Serve(p: Provider, requests: seq<Request>) returns (blocks: seq<Run>, stopped: bool)
    requires p.Valid()
    modifies p
    ensures p.Valid() && p.Lay() == old(p.Lay()) && HeldOk(p.Lay(), blocks)
    ensures Held(blocks) !! p.FreePages() && Held(blocks) + p.FreePages() == old(p.FreePages())
    ensures blocks == [] ==> p.Free() == old(p.Free())
    ensures stopped ==> exists i | 0 <= i < |requests| :: requests[i].Ask? && requests[i].n >= 2048
  {
    blocks, stopped := [], false;
    ghost var start := Snapshot(p.Free(), {});
    ghost var run: seq<Snapshot>, events: seq<Event> := [start], [];
    NothingYet(p.Lay(), start);
    assert Canonical(p.Lay(), p.Free());
    hide *;
    for k := 0 to |requests|
      invariant Tracks(p, blocks, run, events) && p.Lay() == old(p.Lay()) && run[0] == start
    {
      match requests[k] {
        case Ask(n) =>
          if n >= 2048 {
            stopped := true;
            break;
          }
          if n > 0 {
            blocks, run, events := Get(p, n, blocks, run, events);
          }
        case Return(i) =>
          if i < |blocks| {
            blocks, run, events := Put(p, i, blocks, run, events);
          }
      }
    }
    Tracked(p, blocks, run, events);
    Settled(p.Lay(), blocks, run, events, start.free, p.Free());
  }

  lemma Tracked(p: Provider, blocks: seq<Run>, run: seq<Snapshot>, events: seq<Event>)
    requires Tracks(p, blocks, run, events)
    ensures p.Valid() && HeldOk(p.Lay(), blocks) && p.FreePages() == FreeSet(p.Lay(), p.Free())
    ensures History(p.Lay(), run, events) && |run| == |events| + 1
    ensures run[|events|] == Snapshot(p.Free(), Held(blocks))
  {
  }
}
