/** heap_alloc and heap_free of the user library: a first-fit allocator over one circular free list
    kept in address order. Addresses are in units of one 16-byte header. */
module UserHeap {
  import opened HeapList
  import opened Prelude

  const HEADER_BYTES: nat := 16
  const WORD: nat := 0x1_0000_0000_0000_0000

  /** Units heap_alloc asks for, in 64-bit arithmetic. */
  function Units(bytes: nat): (n: nat)
    ensures n > 0
  {
    (bytes + HEADER_BYTES - 1) % WORD / HEADER_BYTES + 1
  }

  /** The units hold the bytes behind the header exactly when the rounding does not wrap, and then fewer would not
      do. */
  lemma UnitsSuffice(bytes: nat)
    requires bytes < WORD
    ensures (Units(bytes) - 1) * HEADER_BYTES >= bytes <==> bytes <= WORD - HEADER_BYTES
    ensures bytes <= WORD - HEADER_BYTES ==> (Units(bytes) - 2) * HEADER_BYTES < bytes || bytes == 0
    ensures Units(0) == 1
  {
  }

  function Wrap(i: nat, n: nat): nat
    requires i < 2 * n
  {
    if i < n then i else i - n
  }

  /** The search stands at entry `k`, `t` entries past the one it starts after, and has met only
      smaller blocks. */
  ghost predicate Lap(m: Memory, ring: seq<int>, f: nat, k: nat, t: nat, n: nat)
    requires AllIn(m, ring)
  {
    && f < |ring| && t < |ring| && k == Wrap(f + 1 + t, |ring|)
    && forall j: nat | j < t :: Smaller(m, ring, f, j, n)
  }

  predicate Smaller(m: Memory, ring: seq<int>, f: nat, j: nat, n: nat)
    requires AllIn(m, ring) && f < |ring| && j < |ring|
  {
    m[ring[Wrap(f + 1 + j, |ring|)]].size < n
  }

  /** A whole lap without success has met every block. */
  lemma LapDone(m: Memory, ring: seq<int>, f: nat, t: nat, n: nat)
    requires AllIn(m, ring) && Lap(m, ring, f, f, t, n) && m[ring[f]].size < n
    ensures t + 1 == |ring| && !HasFit(m, ring, n)
  {
    forall i: nat | i < |ring| ensures m[ring[i]].size < n {
      var j := if i > f then i - f - 1 else i + |ring| - f - 1;
      assert j < t ==> Smaller(m, ring, f, j, n);
    }
  }

  /** First fit: the search starts after the entry at `start` and goes round; the block it gives is the tail of the
      first one that is large enough, and it stops at the entry before that one. */
  ghost predicate FirstFit(m: Memory, ring: seq<int>, start: int, n: nat, block: int, stop: int)
    requires AllIn(m, ring)
  {
    exists f: nat, k: nat, t: nat ::
      && Lap(m, ring, f, k, t, n) && ring[f] == start && k < |ring| && m[ring[k]].size >= n
      && block == ring[k] + m[ring[k]].size - n && stop == ring[Prev(|ring|, k)]
  }

  lemma FitFirst(m: Memory, ring: seq<int>, f: nat, k: nat, t: nat, n: nat)
    requires AllIn(m, ring) && Lap(m, ring, f, k, t, n) && k < |ring| && m[ring[k]].size >= n
    ensures FirstFit(m, ring, ring[f], n, ring[k] + m[ring[k]].size - n, ring[Prev(|ring|, k)])
  {
  }

  lemma DropLive(m: Memory, ring: seq<int>, base: int, live: map<int, nat>, b: int)
    requires AllIn(m, ring) && LiveOk(m, ring, base, live) && b in live
    ensures LiveOk(m, ring, base, live - {b})
    ensures b in m && m[b].size == live[b] > 0 && (b + m[b].size < base || base < b) && NoneFree(m, ring, b, m[b].size)
    ensures forall h | h in live && h != b :: h + live[h] <= b || b + m[b].size <= h
  {
    var n := live[b];
    forall h | h in live && h != b ensures h + live[h] <= b || b + n <= h {
      assert Ordered(live, h, b) && Ordered(live, b, h);
    }
  }

  /** Unit `x` comes from the system call, which is made only when no free block fits. */
  predicate Granted(grant: Option<int>, had: bool, n: nat, x: int) {
    !had && grant.Some? && grant.value <= x < grant.value + n
  }

  lemma LapStep(m: Memory, ring: seq<int>, f: nat, k: nat, t: nat, n: nat)
    requires AllIn(m, ring) && Lap(m, ring, f, k, t, n) && k < |ring| && m[ring[k]].size < n && k != f
    ensures Lap(m, ring, f, Next(k, |ring|), t + 1, n)
  {
    assert Smaller(m, ring, f, t, n);
  }

  /** Unit `x` belongs to a live block. */
  ghost predicate LiveCell(live: map<int, nat>, x: int) {
    exists h :: h in live && h <= x < h + live[h]
  }

  lemma TakenLive(live: map<int, nat>, h: int, n: nat)
    requires h !in live
    ensures forall x :: LiveCell(live[h := n], x) <==> LiveCell(live, x) || h <= x < h + n
  {
    var live' := live[h := n];
    forall x | LiveCell(live, x) || h <= x < h + n ensures LiveCell(live', x) {
      if LiveCell(live, x) {
        var g :| g in live && g <= x < g + live[g];
        assert g in live';
      } else {
        assert h in live';
      }
    }
  }

  lemma FreedLive(live: map<int, nat>, b: int)
    requires b in live
    ensures forall x :: LiveCell(live, x) <==> LiveCell(live - {b}, x) || b <= x < b + live[b]
  {
    var rest := live - {b};
    forall x | LiveCell(live, x) ensures LiveCell(rest, x) || b <= x < b + live[b] {
      var h :| h in live && h <= x < h + live[h];
      assert h != b ==> h in rest;
    }
    forall x | LiveCell(rest, x) ensures LiveCell(live, x) {
      var h :| h in rest && h <= x < h + rest[h];
      assert h in live;
    }
  }

  ghost function Supplied(grant: Option<int>, had: bool, n: nat): set<int>
    requires grant.Some?
  {
    set x | grant.value <= x < grant.value + n && Granted(grant, had, n, x)
  }

  /** The units supplied stay the free and the live ones over an allocation. */
  lemma Accounts(m: Memory, ring: seq<int>, live: map<int, nat>, granted: set<int>,
                 m': Memory, ring': seq<int>, live': map<int, nat>, grant: Option<int>, had: bool, n: nat, r: Option<int>)
    requires AllIn(m, ring) && AllIn(m', ring')
    requires forall x :: x in granted <==> FreeCell(m, ring, x) || LiveCell(live, x)
    requires forall x :: FreeCell(m', ring', x) <==>
        (FreeCell(m, ring, x) || Granted(grant, had, n, x)) && !(r.Some? && r.value - 1 <= x < r.value - 1 + n)
    requires r.Some? ==> forall x | r.value - 1 <= x < r.value - 1 + n :: FreeCell(m, ring, x) || Granted(grant, had, n, x)
    requires if r.Some? then r.value - 1 !in live && live' == live[r.value - 1 := n] else live' == live
    ensures var granted' := if grant.Some? then granted + Supplied(grant, had, n) else granted;
      && (forall x :: x in granted' <==> FreeCell(m', ring', x) || LiveCell(live', x))
      && (forall x :: x in granted' <==> x in granted || Granted(grant, had, n, x))
  {
    if r.Some? {
      TakenLive(live, r.value - 1, n);
    }
    hide FreeCell, LiveCell;
    var granted' := if grant.Some? then granted + Supplied(grant, had, n) else granted;
    forall x
      ensures x in granted' <==> x in granted || Granted(grant, had, n, x)
      ensures x in granted' <==> FreeCell(m', ring', x) || LiveCell(live', x)
    {
      var taken := r.Some? && r.value - 1 <= x < r.value - 1 + n;
      assert LiveCell(live', x) <==> LiveCell(live, x) || taken;
      assert FreeCell(m', ring', x) <==> (FreeCell(m, ring, x) || Granted(grant, had, n, x)) && !taken;
      assert taken ==> FreeCell(m, ring, x) || Granted(grant, had, n, x);
    }
  }

  class Heap {
    /** Address of the static header. */
    const base: int
    var m: Memory
    var freep: Option<int>
    /** The free list by address. */
    ghost var ring: seq<int>
    /** Blocks handed out: header address to size. */
    ghost var live: map<int, nat>
    /** Units the system calls have supplied so far. */
    ghost var granted: set<int>

    /** The free list is well formed, and live blocks are apart from it and from each other. */
    ghost predicate Sound()
      reads this
    {
      if freep.None? then ring == [] && live == map[]
      else ListOk(m, ring, base) && LiveOk(m, ring, base, live) && freep.value in ring
    }

    /** Over every history of calls: each unit ever supplied is free or live, and no other is. */
    ghost predicate Valid()
      reads this
    {
      Sound() && forall x :: x in granted <==> Free(x) || Live(x)
    }

    ghost predicate Free(x: int)
      reads this
      requires Sound()
    {
      FreeCell(m, ring, x)
    }

    ghost predicate Live(x: int)
      reads this
    {
      LiveCell(live, x)
    }

    /** Some free block is large enough. */
    ghost predicate Fit(n: nat)
      reads this
      requires Sound()
    {
      HasFit(m, ring, n)
    }

    constructor (base: int)
      ensures Valid() && this.base == base && freep.None? && granted == {}
    {
      this.base := base;
      m, freep, ring, live, granted := map[], None, [], map[], {};
    }

    /** Units that are neither free, live nor the static header, and do not end at it. */
    ghost predicate Fresh(h: int, n: nat)
      reads this
      requires Sound()
    {
      && (h + n < base || base < h)
      && forall x | h <= x < h + n :: !Free(x) && !Live(x)
    }

    /** Heaps with the same units supplied and the same live blocks have the same free list, whatever
        calls led there. */
    lemma Forgotten(other: Heap)
      requires Valid() && other.Valid() && freep.Some? && other.freep.Some?
      requires base == other.base && granted == other.granted && live == other.live
      ensures ring == other.ring && forall a | a in ring :: a in m && a in other.m && m[a] == other.m[a]
    {
      forall x ensures FreeCell(m, ring, x) <==> FreeCell(other.m, other.ring, x) {
        assert x in granted <==> Free(x) || Live(x);
        assert x in other.granted <==> other.Free(x) || other.Live(x);
        Apart(x);
        other.Apart(x);
      }
      ListDetermined(m, ring, other.m, other.ring, base);
      forall a | a in ring ensures a in m && a in other.m && m[a] == other.m[a] {
        var i: nat :| i < |ring| && ring[i] == a;
        assert Link(m, ring, i) && Link(other.m, ring, i);
      }
    }

    /** No unit is both free and live. */
    lemma Apart(x: int)
      requires Sound()
      ensures !(Free(x) && Live(x))
    {
      if Live(x) {
        var h :| h in live && h <= x < h + live[h];
        assert NoneFree(m, ring, h, live[h]);
      }
    }

    /** A client writes a unit of a block it holds, behind the header. */
    method Scribble(h: int, x: int, value: Header)
      requires Valid() && h in live && h < x < h + live[h]
      modifies this`m
      ensures Valid() && m == old(m)[x := value]
      ensures forall y :: Free(y) <==> old(Free(y))
    {
      PayloadFree(h, x);
      Frame(m, m[x := value], ring, base, live);
      hide *;
      m := m[x := value];
    }

    /** The payload of a live block holds no header of a free or live block. */
    lemma PayloadFree(h: int, x: int)
      requires Sound() && h in live && h < x < h + live[h]
      ensures x !in ring && x !in live
      ensures forall a | a in ring || a in live :: a in m
    {
      assert NoneFree(m, ring, h, live[h]) && !FreeCell(m, ring, x);
      forall i: nat | i < |ring| ensures ring[i] != x {
        assert ring[i] != base ==> InBlock(m, ring, i, ring[i]);
      }
      forall g | g in live ensures g != x {
        assert Ordered(live, h, g);
      }
    }

    /** Put the block at `b` on the free list. */
    method Release(b: int)
      requires Sound() && freep.Some?
      requires b in m && m[b].size > 0 && (b + m[b].size < base || base < b) && NoneFree(m, ring, b, m[b].size)
      requires b !in live && forall h | h in live :: h + live[h] <= b || b + m[b].size <= h
      modifies this
      ensures Sound() && freep.Some? && live == old(live) && granted == old(granted)
      ensures forall x :: Free(x) <==> old(Free(x)) || b <= x < b + old(m[b].size)
      ensures HasFit(m, ring, old(m[b].size))
      ensures old(ring) != [] && freep == Some(old(ring)[Before(old(ring), b)])
    {
      ReleaseAll(m, ring, base, b, live);
      var p := Walk(b);
      ghost var r' := Coalesced(m, ring, b);
      hide *;
      Join(p, b);
      freep := Some(p);
      ring := r';
    }

    /** The two coalescing branches of heap_free. */
    method Join(p: int, b: int)
      requires p in m && b in m && m[p].ptr in m
      modifies this`m
      ensures m == Coalesce(old(m), p, old(m[p].ptr), b)
    {
      var next := m[p].ptr;
      if b + m[b].size == next {
        m := m[b := Header(m[next].ptr, m[b].size + m[next].size)];
      } else {
        m := m[b := Header(next, m[b].size)];
      }
      if p + m[p].size == b {
        m := m[p := Header(m[b].ptr, m[p].size + m[b].size)];
      } else {
        m := m[p := Header(b, m[p].size)];
      }
    }

    /** The walk of heap_free to the entry before the block. */
    method Walk(b: int) returns (p: int)
      requires freep.Some? && ListOk(m, ring, base) && freep.value in ring && b !in ring
      ensures p == ring[Before(ring, b)]
    {
      p := freep.value;
      ghost var k: nat :| k < |ring| && ring[k] == p;
      ghost var goal := Before(ring, b);
      StopsAt(m, ring, base, b, k);
      assert Link(m, ring, k);
      while !(b > p && b < m[p].ptr)
        invariant k < |ring| && p == ring[k] && Link(m, ring, k)
        invariant Stops(p, m[p].ptr, b) <==> k == goal
        decreases if k <= goal then goal - k else goal + |ring| - k
      {
        if p >= m[p].ptr && (b > p || b < m[p].ptr) {
          break;
        }
        p := m[p].ptr;
        k := Next(k, |ring|);
        assert Link(m, ring, k);
        StopsAt(m, ring, base, b, k);
      }
    }

    /** heap_free. */
    method HeapFree(ap: int)
      requires Valid() && ap - 1 in live
      modifies this
      ensures Valid() && granted == old(granted) && live == old(live) - {ap - 1}
      ensures old(ring) != [] && freep == Some(old(ring)[Before(old(ring), ap - 1)])
      ensures forall x :: Free(x) <==> old(Free(x)) || ap - 1 <= x < ap - 1 + old(live[ap - 1])
    {
      var b := ap - 1;
      DropLive(m, ring, base, live, b);
      hide LiveOk, ListOk, NoneFree, FreeCell, AllIn;
      FreedLive(live, b);
      live := live - {b};
      Release(b);
    }

    /** heap_expand, once the system call has supplied `n` units at `hp`. */
    method Expand(hp: int, n: nat)
      requires Sound() && freep.Some? && n > 0 && Fresh(hp, n)
      modifies this
      ensures Sound() && freep.Some? && live == old(live) && granted == old(granted) && Fit(n) && AllIn(m, ring)
      ensures forall x :: Free(x) <==> old(Free(x)) || hp <= x < hp + n
    {
      NewHeader(hp, n);
      m := m[hp := Header(if hp in m then m[hp].ptr else 0, n)];
      hide LiveOk, NoneFree, FreeCell;
      Release(hp);
    }

    /** Writing a header in fresh units disturbs neither list nor live blocks. */
    lemma NewHeader(hp: int, n: nat)
      requires Sound() && freep.Some? && n > 0 && Fresh(hp, n)
      ensures var m' := m[hp := Header(if hp in m then m[hp].ptr else 0, n)];
        && ListOk(m', ring, base) && LiveOk(m', ring, base, live) && NoneFree(m', ring, hp, n)
        && hp !in live && (forall h | h in live :: h + live[h] <= hp || hp + n <= h)
        && forall x :: FreeCell(m', ring, x) <==> FreeCell(m, ring, x)
    {
      var m' := m[hp := Header(if hp in m then m[hp].ptr else 0, n)];
      assert !Free(hp);
      forall i: nat | i < |ring| ensures ring[i] != hp {
        assert ring[i] != base ==> InBlock(m, ring, i, ring[i]) && Free(ring[i]);
      }
      forall h | h in live ensures h != hp && (h + live[h] <= hp || hp + n <= h) {
        assert Live(h) && !Live(hp);
        assert !(h <= hp < h + live[h]);
      }
      Frame(m, m', ring, base, live);
      forall x | hp <= x < hp + n ensures !FreeCell(m', ring, x) {
        assert !Free(x);
      }
    }

    /** The first call makes the list, of `base` alone. */
    method Initialize()
      requires Sound() && freep.None?
      modifies this
      ensures Sound() && freep == Some(base) && live == map[] && granted == old(granted)
      ensures forall x :: !Free(x)
      ensures forall n | n > 0 :: !Fit(n)
    {
      m := m[base := Header(base, 0)];
      freep := Some(base);
      ring := [base];
      assert Link(m, ring, 0);
    }

    /** What the search knows of an entry. */
    lemma Entry(k: nat)
      requires Sound() && freep.Some? && k < |ring|
      ensures AllIn(m, ring) && ring[k] in m && m[ring[k]].ptr == ring[Next(k, |ring|)]
      ensures Prev(|ring|, Next(k, |ring|)) == k
      ensures forall j | 0 <= j < |ring| && ring[j] == ring[k] :: j == k
    {
      assert Link(m, ring, k);
      SpacedAscending(m, ring, base);
    }

    /** Take a block that fits: whole, or its tail. */
    method Take(prevp: int, p: int, ghost k: nat, n: nat) returns (r: int)
      requires Sound() && freep.Some? && k < |ring| && AllIn(m, ring)
      requires p == ring[k] && prevp == ring[Prev(|ring|, k)] && n > 0 && m[p].size >= n
      modifies this
      ensures Sound() && freep == Some(prevp) && granted == old(granted)
      ensures forall x | r - 1 <= x < r - 1 + n :: old(Free(x))
      ensures r - 1 == p + old(m[p].size) - n && r - 1 !in old(live) && live == old(live)[r - 1 := n]
      ensures forall x :: Free(x) <==> old(Free(x)) && !(r - 1 <= x < r - 1 + n)
    {
      hide ListOk, LiveOk, FreeCell;
      TakenCells(k, n);
      if m[p].size == n {
        TakeWholeFacts(k, n);
        hide *;
        live := live[p := n];
        ring := Remove(ring, k);
        m := m[prevp := Header(m[p].ptr, m[prevp].size)];
        freep := Some(prevp);
        r := p + 1;
      } else {
        TakeTailFacts(k, n);
        hide *;
        r := Cut(prevp, p, k, n);
      }
    }

    /** The tail of a larger block is taken. */
    method Cut(prevp: int, p: int, ghost k: nat, n: nat) returns (r: int)
      requires k < |ring| && AllIn(m, ring) && p == ring[k] && 0 < n < m[p].size
      modifies this
      ensures r - 1 == p + old(m[p].size) - n && live == old(live)[r - 1 := n]
      ensures ring == old(ring) && granted == old(granted) && freep == Some(prevp)
      ensures m == Shrunk(old(m), ring, k, n, if r - 1 in old(m) then old(m)[r - 1].ptr else 0)
    {
      var q := p + m[p].size - n;
      live := live[q := n];
      m := m[p := Header(m[p].ptr, m[p].size - n)];
      m := m[q := Header(if q in m then m[q].ptr else 0, n)];
      freep := Some(prevp);
      r := q + 1;
    }

    lemma TakeWholeFacts(k: nat, n: nat)
      requires Sound() && freep.Some? && k < |ring| && AllIn(m, ring) && n > 0 && m[ring[k]].size == n
      ensures ring[k] !in live
      ensures var h, m', r' := ring[k], Unlinked(m, ring, k), Remove(ring, k);
        && ListOk(m', r', base) && LiveOk(m', r', base, live[h := n]) && ring[Prev(|ring|, k)] in r'
        && forall x :: FreeCell(m', r', x) <==> FreeCell(m, ring, x) && !(h <= x < h + n)
    {
      var h, m', r' := ring[k], Unlinked(m, ring, k), Remove(ring, k);
      TakenCells(k, n);
      TakeWhole(m, ring, base, k);
      forall x ensures FreeCell(m', r', x) <==> FreeCell(m, ring, x) && !(h <= x < h + n) {
        WholeCells(m, ring, base, k, x);
      }
      var i := Prev(|ring|, k);
      assert r'[if i < k then i else i - 1] == ring[i];
      hide FreeCell, ListOk, Remove;
      TakeLive(m, ring, m', r', base, live, h, n);
    }

    lemma TakeTailFacts(k: nat, n: nat)
      requires Sound() && freep.Some? && k < |ring| && AllIn(m, ring) && 0 < n < m[ring[k]].size
      ensures ring[k] + m[ring[k]].size - n !in live
      ensures var h := ring[k] + m[ring[k]].size - n;
        var m' := Shrunk(m, ring, k, n, if h in m then m[h].ptr else 0);
        && ListOk(m', ring, base) && LiveOk(m', ring, base, live[h := n])
        && forall x :: FreeCell(m', ring, x) <==> FreeCell(m, ring, x) && !(h <= x < h + n)
    {
      var h := ring[k] + m[ring[k]].size - n;
      var q := if h in m then m[h].ptr else 0;
      var m' := Shrunk(m, ring, k, n, q);
      TakenCells(k, n);
      TakeTail(m, ring, base, k, n, q);
      forall x ensures FreeCell(m', ring, x) <==> FreeCell(m, ring, x) && !(h <= x < h + n) {
        TailCells(m, ring, base, k, n, q, x);
      }
      hide FreeCell, ListOk;
      TakeLive(m, ring, m', ring, base, live, h, n);
    }

    /** The units taken are free ones away from `base`, and no live header is a free entry or among them. */
    lemma TakenCells(k: nat, n: nat)
      requires Sound() && freep.Some? && k < |ring| && AllIn(m, ring) && n > 0 && m[ring[k]].size >= n
      ensures var h := ring[k] + m[ring[k]].size - n;
        && (h + n < base || base < h)
        && (forall x | h <= x < h + n :: FreeCell(m, ring, x))
        && (forall g | g in live :: g in m && g !in ring && g != h)
      ensures |ring| > 1
    {
      var h := ring[k] + m[ring[k]].size - n;
      forall x | h <= x < h + n ensures FreeCell(m, ring, x) {
        assert InBlock(m, ring, k, x);
      }
      var b: nat :| b < |ring| && ring[b] == base;
      if b < k { SpacedPair(m, ring, base, b, k); } else if k < b { SpacedPair(m, ring, base, k, b); }
      forall g | g in live ensures g !in ring && g != h {
        assert NoneFree(m, ring, g, live[g]) && !FreeCell(m, ring, g);
        ClearByCells(m, ring, base, g, live[g]);
      }
    }

    /** heap_alloc. `grant` is what the system call supplies if the search needs more memory: nothing,
        or the address of fresh units. */
    method HeapAlloc(bytes: nat, grant: Option<int>) returns (r: Option<int>)
      requires Valid() && bytes < WORD
      requires grant.Some? ==> Fresh(grant.value, Units(bytes))
      modifies this
      ensures Valid() && freep.Some?
      ensures forall x :: x in granted <==> x in old(granted) || Granted(grant, old(Fit(Units(bytes))), Units(bytes), x)
      ensures r.Some? ==> forall x | r.value - 1 <= x < r.value - 1 + Units(bytes) ::
          old(Free(x)) || Granted(grant, old(Fit(Units(bytes))), Units(bytes), x)
      ensures r.None? <==> grant.None? && !old(Fit(Units(bytes)))
      ensures old(Fit(Units(bytes))) ==>
        && r.Some? && old(freep).Some?
        && FirstFit(old(m), old(ring), old(freep).value, Units(bytes), r.value - 1, freep.value)
      ensures r.None? ==> live == old(live) && forall x :: Free(x) <==> old(Free(x))
      ensures r.Some? ==> r.value - 1 !in old(live) && live == old(live)[r.value - 1 := Units(bytes)]
      ensures r.Some? ==> forall x :: Free(x) <==>
          (old(Free(x)) || Granted(grant, old(Fit(Units(bytes))), Units(bytes), x)) &&
          !(r.value - 1 <= x < r.value - 1 + Units(bytes))
    {
      var nunits := Units(bytes);
      ghost var had := Fit(nunits);
      if freep.None? {
        Initialize();
      }
      assert forall x :: Free(x) <==> old(Free(x));
      assert AllIn(old(m), old(ring)) && forall x :: x in granted <==> FreeCell(old(m), old(ring), x) || LiveCell(old(live), x);
      hide ListOk, LiveOk, FreeCell, HasFit, AllIn, LiveCell, FirstFit;
      r := Search(nunits, grant);
      InList();
      Accounts(old(m), old(ring), old(live), granted, m, ring, live, grant, had, nunits, r);
      if grant.Some? {
        granted := granted + Supplied(grant, had, nunits);
      }
    }

    lemma InList()
      requires Sound()
      ensures AllIn(m, ring)
    {
    }

    lemma FitHere(k: nat, n: nat)
      requires Sound() && freep.Some? && k < |ring| && AllIn(m, ring) && m[ring[k]].size >= n
      ensures Fit(n)
    {
    }

    /** The loop of heap_alloc. */
    method Search(nunits: nat, grant: Option<int>) returns (r: Option<int>)
      requires Sound() && freep.Some? && nunits > 0
      requires grant.Some? ==> Fresh(grant.value, nunits)
      modifies this
      ensures Sound() && freep.Some? && granted == old(granted)
      ensures r.Some? ==> forall x | r.value - 1 <= x < r.value - 1 + nunits ::
          old(Free(x)) || Granted(grant, old(Fit(nunits)), nunits, x)
      ensures r.None? <==> grant.None? && !old(Fit(nunits))
      ensures old(Fit(nunits)) ==> r.Some? && FirstFit(old(m), old(ring), old(freep).value, nunits, r.value - 1, freep.value)
      ensures r.None? ==> live == old(live) && forall x :: Free(x) <==> old(Free(x))
      ensures r.Some? ==> r.value - 1 !in old(live) && live == old(live)[r.value - 1 := nunits]
      ensures r.Some? ==> forall x :: Free(x) <==>
          (old(Free(x)) || Granted(grant, old(Fit(nunits)), nunits, x)) &&
          !(r.value - 1 <= x < r.value - 1 + nunits)
    {
      ghost var had := Fit(nunits);
      hide ListOk, LiveOk, FreeCell, HasFit, AllIn, FirstFit;
      var found, prevp, p;
      ghost var k;
      found, prevp, p, k := Round(nunits);
      if !found {
        if grant.None? {
          return None;
        }
        Expand(grant.value, nunits);
        found, prevp, p, k := Round(nunits);
      }
      assert forall x :: Free(x) <==> old(Free(x)) || Granted(grant, had, nunits, x);
      var q := Take(prevp, p, k, nunits);
      r := Some(q);
    }

    /** The loop once round the list: from the entry after `freep` to the first block that is large enough, if
        there is one. After an expansion it starts again the same way. */
    method Round(nunits: nat) returns (found: bool, prevp: int, p: int, ghost k: nat)
      requires Sound() && freep.Some? && nunits > 0
      ensures found <==> Fit(nunits)
      ensures found ==>
        && k < |ring| && AllIn(m, ring) && p == ring[k] && prevp == ring[Prev(|ring|, k)] && m[p].size >= nunits
        && FirstFit(m, ring, freep.value, nunits, p + m[p].size - nunits, prevp)
    {
      prevp := freep.value;
      ghost var f: nat :| f < |ring| && ring[f] == prevp;
      Entry(f);
      p := m[prevp].ptr;
      ghost var t: nat := 0;
      k := Next(f, |ring|);
      hide ListOk, LiveOk, FreeCell, HasFit, AllIn, Smaller, FirstFit;
      while true
        invariant AllIn(m, ring) && Lap(m, ring, f, k, t, nunits)
        invariant freep.value == ring[f] && p == ring[k] && prevp == ring[Prev(|ring|, k)]
        decreases |ring| - t
      {
        Entry(k);
        if m[p].size >= nunits {
          FitHere(k, nunits);
          FitFirst(m, ring, f, k, t, nunits);
          return true, prevp, p, k;
        }
        if p == freep.value {
          Entry(f);
          LapDone(m, ring, f, t, nunits);
          return false, prevp, p, k;
        }
        LapStep(m, ring, f, k, t, nunits);
        k, t := Next(k, |ring|), t + 1;
        prevp := p;
        p := m[p].ptr;
      }
    }
  }
}
