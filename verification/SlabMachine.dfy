/** The slab cache over whole histories, and its code as it edits lists and freelists in place. */
module SlabMachine {
  import opened SlabCache
  import opened Prelude

  // ----- histories

  datatype Event = Allocated(page: Option<nat>, got: Outcome) | Freed(o: Obj) | Shrunk

  /** The objects handed out and not freed again, by the events alone. */
  function Held(events: seq<Event>): set<Obj> {
    if events == [] then {}
    else
      var before := Held(events[..|events| - 1]);
      match events[|events| - 1]
      case Allocated(_, got) => if got.Given? then before + {got.obj} else before
      case Freed(o) => before - {o}
      case Shrunk => before
  }

  /** A step, where callers free only what they hold; what happens in a broken cache is left open, and after a
      stop of the kernel more may follow here than in the source. */
  ghost predicate IsStep(c: Cache, held: set<Obj>, e: Event, c': Cache) {
    match e
    case Allocated(page, got) => FreshPage(c, page) && (Inv(c) ==> Alloc(c, page) == (c', got))
    case Freed(o) => o in held && (Inv(c) && o in c.live ==> c' == Free(c, o))
    case Shrunk => c' == Shrink(c)
  }

  ghost predicate IsHistory(states: seq<Cache>, events: seq<Event>) {
    && |states| == |events| + 1
    && (forall i | 0 <= i < |events| :: IsStep(states[i], Held(events[..i]), events[i], states[i + 1]))
  }

  /** Over any history: the lists and chains stay right, the cache and its callers agree on what is live, and
      no object is handed out while it is held. */
  lemma {:induction false} CacheLaw(states: seq<Cache>, events: seq<Event>, n: nat)
    requires IsHistory(states, events) && n < |states| && Inv(states[0]) && states[0].live == {}
    ensures Inv(states[n]) && states[n].live == Held(events[..n])
    ensures n < |events| && events[n].Allocated? && events[n].got.Given? ==> events[n].got.obj !in Held(events[..n])
  {
    if n > 0 {
      CacheLaw(states, events, n - 1);
      var c, e := states[n - 1], events[n - 1];
      assert IsStep(c, Held(events[..n - 1]), e, states[n]);
      assert events[..n][..n - 1] == events[..n - 1];
      match e
      case Allocated(page, got) => AllocRight(c, page);
      case Freed(o) => FreeRight(c, o);
      case Shrunk => ShrinkRight(c);
    }
    if n < |events| && events[n].Allocated? {
      assert IsStep(states[n], Held(events[..n]), events[n], states[n + 1]);
      AllocRight(states[n], events[n].page);
    }
  }

  /** An empty cache is a good start. */
  lemma EmptyGood(count: nat)
    requires count > 0
    ensures Inv(Cache(count, [], [], [], map[], {}))
  {
  }

  // ----- the code

  /** The slabs that are not among those given back. */
  function Kept(slabs: map<nat, Slab>, gone: seq<nat>): map<nat, Slab> {
    map s | s in slabs && s !in gone :: slabs[s]
  }

  lemma OneGone(slabs: map<nat, Slab>, gone: seq<nat>, s: nat)
    ensures Kept(slabs, gone + [s]) == Kept(slabs, gone) - {s}
  {
  }

  lemma AllGone(c: Cache)
    ensures Kept(c.slabs, c.free) == Shrink(c).slabs && Kept(c.slabs, []) == c.slabs
  {
  }

  class KmemCache {
    const count: nat
    var partial: seq<nat>
    var full: seq<nat>
    var free: seq<nat>
    var slabs: map<nat, Slab>
    var live: set<Obj>

    function C(): Cache
      reads this
    {
      Cache(count, partial, full, free, slabs, live)
    }

    /** slab_cache_grow, with the page the page allocator gave. */
    method GrowBy(page: nat)
      requires Inv(C()) && page !in slabs
      modifies this
      ensures C() == Grow(old(C()), page)
    {
      free := [page] + free;
      var freelist := seq(count, _ => 0);
      for i := 0 to count
        invariant |freelist| == count
        invariant forall j | 0 <= j < i :: freelist[j] == j + 1
      {
        freelist := freelist[i := i + 1];
      }
      freelist := freelist[count - 1 := END];
      assert freelist == FreshSlab(count).freelist;
      slabs := slabs[page := Slab(0, 0, freelist, seq(count, i requires 0 <= i => i))];
    }

    /** kmem_cache_alloc. */
    method AllocObject(page: Option<nat>) returns (o: Outcome)
      requires Inv(C()) && FreshPage(C(), page)
      modifies this
      ensures (C(), o) == Alloc(old(C()), page) && Inv(C())
    {
      AllocRight(C(), page);
      ReadyOk(C(), page);
      var s: nat;
      if partial != [] {
        s := partial[0];
      } else {
        if free == [] {
          if page.None? {
            return Panic;
          }
          GrowBy(page.value);
        }
        s := free[0];
      }
      SourceOk(C());
      hide Inv, Ready, Refile, Grow;
      o := TakeObject(s);
    }

    /** kmem_cache_alloc, once a slab with room is known. */
    method TakeObject(s: nat) returns (o: Outcome)
      requires Inv(C()) && s in slabs && slabs[s].inuse < count
      modifies this
      ensures C() == TakeFrom(old(C()), s)
      ensures 0 <= old(slabs)[s].nextFree && o == Given(Obj(s, old(slabs)[s].nextFree))
    {
      ghost var r := C();
      TakeSlotOk(count, live, s, slabs[s]);
      Unlist(s);
      var slot := slabs[s].nextFree;
      slabs := slabs[s := TakeSlot(slabs[s])];
      live := live + {Obj(s, slot)};
      if slabs[s].inuse == count {
        full := [s] + full;
      } else {
        partial := [s] + partial;
      }
      assert C() == TakeFrom(r, s);
      o := Given(Obj(s, slot));
    }

    /** list_remove: off whichever list the slab is on. */
    method Unlist(s: nat)
      requires Inv(C()) && s in slabs
      modifies this
      ensures slabs == old(slabs) && live == old(live)
      ensures partial == Drop(old(partial), s) && full == Drop(old(full), s) && free == Drop(old(free), s)
    {
      DropMembers(partial, s);
      DropMembers(full, s);
      DropMembers(free, s);
      if 0 < slabs[s].inuse < count {
        partial := Drop(partial, s);
      } else if slabs[s].inuse == count {
        full := Drop(full, s);
      } else {
        assert SlabOk(count, live, s, slabs[s]);
        free := Drop(free, s);
      }
    }

    /** slab_find: the partial list, then the full one. */
    method Find(s: nat) returns (found: bool)
      requires Inv(C())
      ensures found <==> s in slabs && s !in free
    {
      found := false;
      for i := 0 to |partial|
        invariant found <==> s in partial[..i]
      {
        if partial[i] == s {
          assert partial[i] in partial;
          found := true;
          break;
        }
      }
      assert found <==> s in partial by {
        assert partial[..|partial|] == partial;
      }
      for i := 0 to |full|
        invariant found <==> s in partial || s in full[..i]
      {
        if full[i] == s {
          assert full[i] in full;
          found := true;
          break;
        }
      }
      assert found <==> s in partial || s in full by {
        assert full[..|full|] == full;
      }
      if s in slabs {
        assert SlabOk(count, live, s, slabs[s]);
      }
    }

    /** kmem_cache_free of an object handed out earlier: its slab is found. */
    method FreeObject(o: Obj)
      requires Inv(C()) && o in live
      modifies this
      ensures C() == Free(old(C()), o) && Inv(C())
    {
      ghost var c := C();
      FreeRight(c, o);
      ReturnSlotOk(count, live, o.slab, slabs[o.slab], o.slot);
      var found := Find(o.slab);
      assert found;
      var s := o.slab;
      Unlist(s);
      slabs := slabs[s := ReturnSlot(slabs[s], o.slot)];
      live := live - {o};
      if slabs[s].inuse == 0 {
        free := [s] + free;
      } else {
        partial := [s] + partial;
      }
      assert C() == Free(c, o);
    }

    /** kmem_cache_shrink: destroy the free list from its front. */
    method ShrinkAll() returns (n: nat)
      requires Inv(C())
      modifies this
      ensures C() == Shrink(old(C())) && Inv(C())
      ensures n == |old(free)|
    {
      ghost var c := C();
      ShrinkRight(c);
      AllGone(c);
      assert c.free[..0] == [];
      hide Inv, Kept, Shrink;
      n := 0;
      while free != []
        invariant n + |free| == |c.free| && free == c.free[n..]
        invariant partial == c.partial && full == c.full && live == c.live
        invariant slabs == Kept(c.slabs, c.free[..n])
        decreases |free|
      {
        var s := free[0];
        free := free[1..];
        OneGone(c.slabs, c.free[..n], s);
        slabs := slabs - {s};
        assert c.free[..n + 1] == c.free[..n] + [s];
        n := n + 1;
      }
      assert c.free[..n] == c.free;
      AllGone(c);
    }
  }
}
