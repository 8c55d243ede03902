/** A slab cache: pages cut into slots, the free slots of each page chained through an array, and the pages
    kept on three lists by how full they are. */
module SlabCache {
  import opened Prelude

  /** The end of a chain. */
  const END: int := -1

  /** A slot of a slab; slabs are named by their page. */
  datatype Obj = Obj(slab: nat, slot: nat)

  /** `chain` records the slots that the walk from `nextFree` visits. */
  datatype Slab = Slab(inuse: nat, nextFree: int, freelist: seq<int>, chain: seq<nat>)

  /** `count` slots to a slab. `live` records the objects handed out and not yet freed. */
  datatype Cache = Cache(
    count: nat, partial: seq<nat>, full: seq<nat>, free: seq<nat>, slabs: map<nat, Slab>, live: set<Obj>)

  /** What follows place `i` of a chain. */
  function After(chain: seq<nat>, i: nat): int {
    if i + 1 < |chain| then chain[i + 1] else END
  }

  predicate Link(sl: Slab, i: nat)
    requires i < |sl.chain|
  {
    sl.chain[i] < |sl.freelist| && sl.freelist[sl.chain[i]] == After(sl.chain, i)
  }

  /** The chain starts at `nextFree`, follows the array, and holds exactly the slots that are not live. */
  ghost predicate SlabOk(count: nat, live: set<Obj>, s: nat, sl: Slab) {
    && |sl.freelist| == count && Distinct(sl.chain)
    && sl.nextFree == (if sl.chain == [] then END else sl.chain[0])
    && (forall i | 0 <= i < |sl.chain| :: Link(sl, i))
    && (forall slot: nat :: slot in sl.chain <==> slot < count && Obj(s, slot) !in live)
    && sl.inuse + |sl.chain| == count
  }

  predicate OnPartial(c: Cache, s: nat) { s in c.slabs && 0 < c.slabs[s].inuse < c.count }
  predicate OnFull(c: Cache, s: nat) { s in c.slabs && c.slabs[s].inuse == c.count }
  predicate OnFree(c: Cache, s: nat) { s in c.slabs && c.slabs[s].inuse == 0 }

  ghost predicate Inv(c: Cache) {
    && c.count > 0
    && Distinct(c.partial) && Distinct(c.full) && Distinct(c.free)
    && (forall s: nat :: s in c.partial <==> OnPartial(c, s))
    && (forall s: nat :: s in c.full <==> OnFull(c, s))
    && (forall s: nat :: s in c.free <==> OnFree(c, s))
    && (forall s | s in c.slabs :: SlabOk(c.count, c.live, s, c.slabs[s]))
    && (forall o | o in c.live :: o.slab in c.slabs && o.slot < c.count)
  }

  /** Take slab `s` off its list, give it new contents, and put it at the front of the list these ask for. */
  function Refile(c: Cache, s: nat, sl: Slab, live: set<Obj>): Cache {
    var p, u, f := Drop(c.partial, s), Drop(c.full, s), Drop(c.free, s);
    Cache(c.count,
          if 0 < sl.inuse < c.count then [s] + p else p,
          if sl.inuse == c.count then [s] + u else u,
          if sl.inuse == 0 then [s] + f else f,
          c.slabs[s := sl], live)
  }

  lemma RefileLists(c: Cache, s: nat, sl: Slab, live: set<Obj>)
    requires Inv(c) && s in c.slabs
    ensures var c' := Refile(c, s, sl, live);
      && Distinct(c'.partial) && Distinct(c'.full) && Distinct(c'.free)
      && (forall t: nat :: t in c'.partial <==> OnPartial(c', t))
      && (forall t: nat :: t in c'.full <==> OnFull(c', t))
      && (forall t: nat :: t in c'.free <==> OnFree(c', t))
  {
    DropMembers(c.partial, s);
    DropMembers(c.full, s);
    DropMembers(c.free, s);
    FrontDistinct(Drop(c.partial, s), s);
    FrontDistinct(Drop(c.full, s), s);
    FrontDistinct(Drop(c.free, s), s);
    hide SlabOk, Drop, Distinct;
  }

  lemma RefileKeeps(c: Cache, s: nat, sl: Slab, live: set<Obj>)
    requires Inv(c) && s in c.slabs && SlabOk(c.count, live, s, sl)
    requires forall o: Obj | o.slab != s :: o in live <==> o in c.live
    requires forall o | o in live && o.slab == s :: o.slot < c.count
    ensures Inv(Refile(c, s, sl, live))
  {
    var c' := Refile(c, s, sl, live);
    RefileLists(c, s, sl, live);
    hide Distinct, Drop;
    forall t | t in c'.slabs ensures SlabOk(c.count, live, t, c'.slabs[t]) {
      assert t != s ==> SlabOk(c.count, c.live, t, c.slabs[t]);
    }
  }

  // ----- one slab

  /** The slot at the front of the chain is handed out. */
  function TakeSlot(sl: Slab): Slab
    requires sl.chain != [] && 0 <= sl.nextFree < |sl.freelist|
  {
    Slab(sl.inuse + 1, sl.freelist[sl.nextFree], sl.freelist, sl.chain[1..])
  }

  function ReturnSlot(sl: Slab, slot: nat): Slab
    requires slot < |sl.freelist| && sl.inuse > 0
  {
    Slab(sl.inuse - 1, slot, sl.freelist[slot := sl.nextFree], [slot] + sl.chain)
  }

  lemma TakeSlotOk(count: nat, live: set<Obj>, s: nat, sl: Slab)
    requires SlabOk(count, live, s, sl) && sl.inuse < count
    ensures sl.chain != [] && 0 <= sl.nextFree < |sl.freelist| && sl.nextFree == sl.chain[0]
    ensures Obj(s, sl.nextFree) !in live && sl.nextFree < count
    ensures SlabOk(count, live + {Obj(s, sl.nextFree)}, s, TakeSlot(sl))
  {
    assert sl.chain != [];
    var x := sl.chain[0];
    assert x in sl.chain && Link(sl, 0);
    var t := TakeSlot(sl);
    forall i | 0 <= i < |t.chain| ensures Link(t, i) {
      assert Link(sl, i + 1);
    }
    assert sl.chain == [x] + sl.chain[1..];
    forall slot: nat ensures slot in t.chain <==> slot < count && Obj(s, slot) !in live + {Obj(s, x)} {
      assert slot in t.chain <==> slot in sl.chain && slot != x;
    }
  }

  lemma ReturnSlotOk(count: nat, live: set<Obj>, s: nat, sl: Slab, slot: nat)
    requires SlabOk(count, live, s, sl) && Obj(s, slot) in live && slot < count
    ensures sl.inuse > 0
    ensures SlabOk(count, live - {Obj(s, slot)}, s, ReturnSlot(sl, slot))
  {
    assert slot !in sl.chain;
    ChainBound(sl.chain, count, slot);
    var t := ReturnSlot(sl, slot);
    forall i | 0 <= i < |t.chain| ensures Link(t, i) {
      if i > 0 {
        assert Link(sl, i - 1) && sl.chain[i - 1] in sl.chain;
      }
    }
  }

  /** A chain that misses a slot is shorter than the slab. */
  lemma ChainBound(chain: seq<nat>, count: nat, slot: nat)
    requires Distinct(chain) && slot < count && slot !in chain
    requires forall x | x in chain :: x < count
    ensures |chain| < count
  {
    FrontDistinct(chain, slot);
    DistinctBound([slot] + chain, count);
  }

  // ----- growing

  function FreshSlab(count: nat): Slab
    requires count > 0
  {
    Slab(0, 0, seq(count, i => if i == count - 1 then END else i + 1), seq(count, i requires 0 <= i => i))
  }

  function Grow(c: Cache, page: nat): Cache
    requires c.count > 0
  {
    c.(free := [page] + c.free, slabs := c.slabs[page := FreshSlab(c.count)])
  }

  lemma GrowKeeps(c: Cache, page: nat)
    requires Inv(c) && page !in c.slabs
    ensures Inv(Grow(c, page)) && OnFree(Grow(c, page), page)
  {
    var c', sl := Grow(c, page), FreshSlab(c.count);
    FrontDistinct(c.free, page);
    forall i | 0 <= i < |sl.chain| ensures Link(sl, i) {
    }
    forall slot: nat ensures slot in sl.chain <==> slot < c.count && Obj(page, slot) !in c.live {
      if slot < c.count {
        assert sl.chain[slot] == slot;
      }
    }
    forall t | t in c'.slabs ensures SlabOk(c.count, c.live, t, c'.slabs[t]) {
      assert t != page ==> SlabOk(c.count, c.live, t, c.slabs[t]);
    }
    forall s: nat ensures s in c'.free <==> OnFree(c', s) {
      assert s in c'.free <==> s == page || s in c.free;
    }
  }

  // ----- the operations

  /** The slab an allocation takes from, once the cache has been grown if it had to be. */
  function Source(c: Cache): nat
    requires c.partial != [] || c.free != []
  {
    if c.partial != [] then c.partial[0] else c.free[0]
  }

  function TakeFrom(c: Cache, s: nat): Cache
    requires Inv(c) && s in c.slabs && c.slabs[s].inuse < c.count
  {
    TakeSlotOk(c.count, c.live, s, c.slabs[s]);
    Refile(c, s, TakeSlot(c.slabs[s]), c.live + {Obj(s, c.slabs[s].nextFree)})
  }

  lemma SourceOk(c: Cache)
    requires Inv(c) && (c.partial != [] || c.free != [])
    ensures Source(c) in c.slabs && c.slabs[Source(c)].inuse < c.count
  {
    if c.partial != [] {
      assert c.partial[0] in c.partial;
    } else {
      assert c.free[0] in c.free;
    }
  }

  /** The cache an allocation works on: grown by `page`, if both its lists with room are empty. */
  function Ready(c: Cache, page: Option<nat>): Cache
    requires c.count > 0
  {
    if c.partial == [] && c.free == [] && page.Some? then Grow(c, page.value) else c
  }

  predicate FreshPage(c: Cache, page: Option<nat>) {
    page.Some? ==> page.value !in c.slabs
  }

  /** An object, or a stop of the kernel: growing asserts that it was given a page. */
  datatype Outcome = Panic | Given(obj: Obj)

  /** kmem_cache_alloc; `page` is what the page allocator would give. */
  function Alloc(c: Cache, page: Option<nat>): (Cache, Outcome)
    requires Inv(c) && FreshPage(c, page)
  {
    ReadyOk(c, page);
    var r := Ready(c, page);
    if r.partial == [] && r.free == [] then (c, Panic)
    else
      SourceOk(r);
      var s := Source(r);
      TakeSlotOk(r.count, r.live, s, r.slabs[s]);
      (TakeFrom(r, s), Given(Obj(s, r.slabs[s].nextFree)))
  }

  lemma ReadyOk(c: Cache, page: Option<nat>)
    requires Inv(c) && FreshPage(c, page)
    ensures Inv(Ready(c, page)) && Ready(c, page).live == c.live
  {
    if page.Some? {
      GrowKeeps(c, page.value);
    }
  }

  /** An allocation stops the kernel exactly if no slab has room and no page is to be had; else the object it
      gives was not live, and only it becomes live. */
  lemma AllocRight(c: Cache, page: Option<nat>)
    requires Inv(c) && FreshPage(c, page)
    ensures var (c', o) := Alloc(c, page);
      && Inv(c')
      && (o.Panic? <==> page.None? && forall s | s in c.slabs :: c.slabs[s].inuse == c.count)
      && (o.Panic? ==> c' == c)
      && (o.Given? ==> o.obj !in c.live && o.obj.slot < c.count && c'.live == c.live + {o.obj})
  {
    ReadyOk(c, page);
    var r := Ready(c, page);
    if r.partial == [] && r.free == [] {
      forall s | s in c.slabs ensures c.slabs[s].inuse == c.count {
        assert s !in r.partial && s !in r.free && SlabOk(c.count, c.live, s, c.slabs[s]);
      }
    } else {
      SourceOk(r);
      var s := Source(r);
      TakeSlotOk(r.count, r.live, s, r.slabs[s]);
      RefileKeeps(r, s, TakeSlot(r.slabs[s]), r.live + {Obj(s, r.slabs[s].nextFree)});
      if page.None? {
        assert s in c.slabs && c.slabs[s].inuse != c.count;
      }
    }
  }

  /** Which object an allocation gives: the first unused slot of the first partly used slab, else of the first
      unused one, else of a new slab. A new slab is made exactly if no slab has room, and no other slab
      changes. */
  lemma AllocFrom(c: Cache, page: Option<nat>)
    requires Inv(c) && FreshPage(c, page) && Alloc(c, page).1.Given?
    ensures var (c', o) := Alloc(c, page);
      var s := o.obj.slab;
      && (s !in c.slabs <==> forall t | t in c.slabs :: c.slabs[t].inuse == c.count)
      && (if c.partial != [] then s == c.partial[0] else if c.free != [] then s == c.free[0] else page == Some(s))
      && c'.count == c.count && c'.slabs.Keys == c.slabs.Keys + {s}
      && (forall t | t in c.slabs && t != s :: c'.slabs[t] == c.slabs[t])
      && s in c'.slabs && c'.slabs[s].inuse == (if s in c.slabs then c.slabs[s].inuse else 0) + 1
      && o.obj.slot == (if s in c.slabs then c.slabs[s].nextFree else 0)
  {
    ReadyOk(c, page);
    var r := Ready(c, page);
    SourceOk(r);
    var s := Source(r);
    TakeSlotOk(r.count, r.live, s, r.slabs[s]);
    if c.partial == [] && c.free == [] {
      forall t | t in c.slabs ensures c.slabs[t].inuse == c.count {
        assert t !in c.partial && t !in c.free && SlabOk(c.count, c.live, t, c.slabs[t]);
      }
      assert s == page.value;
    } else {
      assert r == c && s in c.slabs && c.slabs[s].inuse != c.count;
    }
  }

  /** The slab it took from goes to the front of its list, and the others keep their order. */
  lemma AllocLists(c: Cache, page: Option<nat>)
    requires Inv(c) && FreshPage(c, page) && Alloc(c, page).1.Given?
    ensures var (c', o) := Alloc(c, page);
      var s := o.obj.slab;
      && s in c'.slabs
      && c'.partial == (if c'.slabs[s].inuse < c.count then [s] else []) + Drop(c.partial, s)
      && c'.full == (if c'.slabs[s].inuse == c.count then [s] else []) + c.full && c'.free == Drop(c.free, s)
  {
    ReadyOk(c, page);
    var r := Ready(c, page);
    SourceOk(r);
    var s := Source(r);
    TakeSlotOk(r.count, r.live, s, r.slabs[s]);
    assert s !in c.full;
    DropMembers(c.full, s);
    assert c.partial == [] && c.free == [] ==> Drop([s], s) == [] == Drop(c.free, s) && r.free == [s];
    hide SlabOk, Distinct, Drop, OnPartial, OnFree, OnFull;
  }

  /** kmem_cache_free of a live object. */
  function Free(c: Cache, o: Obj): Cache
    requires Inv(c) && o in c.live
  {
    ReturnSlotOk(c.count, c.live, o.slab, c.slabs[o.slab], o.slot);
    Refile(c, o.slab, ReturnSlot(c.slabs[o.slab], o.slot), c.live - {o})
  }

  lemma FreeRight(c: Cache, o: Obj)
    requires Inv(c) && o in c.live
    ensures Inv(Free(c, o)) && Free(c, o).live == c.live - {o}
    ensures o.slab !in c.free
  {
    ReturnSlotOk(c.count, c.live, o.slab, c.slabs[o.slab], o.slot);
    RefileKeeps(c, o.slab, ReturnSlot(c.slabs[o.slab], o.slot), c.live - {o});
  }

  /** The slot freed is the next one its slab will give, the slab goes to the front of its list, and no other slab
      changes. */
  lemma FreeInto(c: Cache, o: Obj)
    requires Inv(c) && o in c.live
    ensures o.slab in c.slabs
    ensures var c' := Free(c, o);
      && c'.count == c.count && c'.slabs.Keys == c.slabs.Keys
      && (forall t | t in c.slabs && t != o.slab :: c'.slabs[t] == c.slabs[t])
      && c'.slabs[o.slab].inuse == c.slabs[o.slab].inuse - 1 && c'.slabs[o.slab].nextFree == o.slot
      && c'.partial == (if c'.slabs[o.slab].inuse > 0 then [o.slab] else []) + Drop(c.partial, o.slab)
      && c'.free == (if c'.slabs[o.slab].inuse == 0 then [o.slab] else []) + c.free && c'.full == Drop(c.full, o.slab)
  {
    FreeRight(c, o);
    DropMembers(c.free, o.slab);
    ReturnSlotOk(c.count, c.live, o.slab, c.slabs[o.slab], o.slot);
  }

  /** Freeing what was just allocated gives its slab back as it was. */
  lemma AllocFree(c: Cache, page: Option<nat>)
    requires Inv(c) && FreshPage(c, page) && Alloc(c, page).1.Given?
    ensures var (c', o) := Alloc(c, page);
      && Inv(c') && o.obj in c'.live
      && Free(c', o.obj).slabs == Ready(c, page).slabs && Free(c', o.obj).live == c.live
  {
    AllocRight(c, page);
    ReadyOk(c, page);
    var r := Ready(c, page);
    SourceOk(r);
    var s := Source(r);
    TakeSlotOk(r.count, r.live, s, r.slabs[s]);
    var sl := r.slabs[s];
    assert Link(sl, 0);
    assert [sl.chain[0]] + sl.chain[1..] == sl.chain;
    assert sl.freelist[sl.nextFree := sl.freelist[sl.nextFree]] == sl.freelist;
    assert c.live + {Obj(s, sl.nextFree)} - {Obj(s, sl.nextFree)} == c.live;
  }

  /** kmem_cache_shrink. */
  function Shrink(c: Cache): Cache {
    c.(free := [], slabs := map s | s in c.slabs && s !in c.free :: c.slabs[s])
  }

  /** Shrinking gives back exactly the slabs with no live object. */
  lemma ShrinkRight(c: Cache)
    requires Inv(c)
    ensures Inv(Shrink(c)) && Shrink(c).live == c.live && Shrink(c).count == c.count
    ensures forall s | s in Shrink(c).slabs :: s in c.slabs && Shrink(c).slabs[s] == c.slabs[s]
    ensures forall s | s in c.slabs :: s !in Shrink(c).slabs <==> forall slot: nat :: Obj(s, slot) !in c.live
  {
    var c' := Shrink(c);
    forall s | s in c.slabs ensures s in c.free <==> forall slot: nat :: Obj(s, slot) !in c.live {
      FreeMeansNoLive(c, s);
    }
    forall t | t in c'.slabs ensures SlabOk(c.count, c.live, t, c'.slabs[t]) {
      assert SlabOk(c.count, c.live, t, c.slabs[t]);
    }
    forall s: nat ensures s in c'.partial <==> OnPartial(c', s) {
      assert s in c.partial <==> OnPartial(c, s);
      assert s in c.free <==> OnFree(c, s);
    }
    forall s: nat ensures s in c'.full <==> OnFull(c', s) {
      assert s in c.full <==> OnFull(c, s);
      assert s in c.free <==> OnFree(c, s);
    }
  }

  lemma FreeMeansNoLive(c: Cache, s: nat)
    requires Inv(c) && s in c.slabs
    ensures c.slabs[s].inuse == 0 <==> forall slot: nat :: Obj(s, slot) !in c.live
  {
    var sl := c.slabs[s];
    assert SlabOk(c.count, c.live, s, sl);
    if slot: nat :| Obj(s, slot) in c.live {
      assert slot !in sl.chain;
      ChainBound(sl.chain, c.count, slot);
    } else {
      DistinctBound(sl.chain, c.count);
    }
  }

  /** Walking the array from a slot, for `n` steps at most. */
  function Follow(freelist: seq<int>, from: int, n: nat): seq<int>
    decreases n
  {
    if n == 0 || from < 0 || from >= |freelist| then [] else [from] + Follow(freelist, freelist[from], n - 1)
  }

  /** The walk from `nextFree` visits exactly the free slots, each once, and then ends. */
  lemma WalkVisitsFree(c: Cache, s: nat)
    requires Inv(c) && s in c.slabs
    ensures var w := Follow(c.slabs[s].freelist, c.slabs[s].nextFree, c.count + 1);
      && |w| == c.count - c.slabs[s].inuse
      && (forall i, j | 0 <= i < j < |w| :: w[i] != w[j])
      && forall slot: nat :: slot in w <==> slot < c.count && Obj(s, slot) !in c.live
  {
    var sl := c.slabs[s];
    assert SlabOk(c.count, c.live, s, sl);
    FollowChain(sl, 0, c.count + 1);
    var w := Follow(sl.freelist, sl.nextFree, c.count + 1);
    assert w == sl.chain[0..];
    forall slot: nat ensures slot in w <==> slot in sl.chain {
    }
  }

  lemma {:induction false} FollowChain(sl: Slab, i: nat, n: nat)
    requires i <= |sl.chain| && n > |sl.chain| - i
    requires forall k | 0 <= k < |sl.chain| :: Link(sl, k)
    ensures Follow(sl.freelist, if i < |sl.chain| then sl.chain[i] else END, n) == sl.chain[i..]
    decreases |sl.chain| - i
  {
    if i < |sl.chain| {
      assert Link(sl, i);
      FollowChain(sl, i + 1, n - 1);
      assert sl.chain[i..] == [sl.chain[i]] + sl.chain[i + 1..];
    }
  }
}
