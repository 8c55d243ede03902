/** The free list of the user heap as a value: headers in memory, linked in address order through the
    static header `base`, and what that determines. Addresses and sizes are in units of one header. */
module HeapList {
  import Prelude

  datatype Header = Header(ptr: int, size: nat)

  type Memory = map<int, Header>

  function Next(i: nat, n: nat): nat
    requires i < n
  {
    if i + 1 == n then 0 else i + 1
  }

  predicate AllIn(m: Memory, ring: seq<int>) {
    forall i | 0 <= i < |ring| :: ring[i] in m
  }

  /** Entry `i` points to the next entry, the last to the first. */
  predicate Link(m: Memory, ring: seq<int>, i: nat)
    requires AllIn(m, ring) && i < |ring|
  {
    m[ring[i]].ptr == ring[Next(i, |ring|)]
  }

  /** `ring` lists the free blocks by address, linked in that order and closed. */
  predicate Linked(m: Memory, ring: seq<int>) {
    && ring != [] && AllIn(m, ring)
    && forall i: nat | i < |ring| :: Link(m, ring, i)
  }

  /** Entry `i` ends before the next one starts, with a gap. */
  predicate Gap(m: Memory, ring: seq<int>, i: nat)
    requires AllIn(m, ring) && i + 1 < |ring|
  {
    ring[i] + m[ring[i]].size < ring[i + 1]
  }

  /** Blocks are in address order, disjoint and never adjacent; only `base` is empty. */
  predicate Spaced(m: Memory, ring: seq<int>, base: int)
    requires AllIn(m, ring)
  {
    && base in ring && m[base].size == 0
    && (forall i | 0 <= i < |ring| && ring[i] != base :: m[ring[i]].size > 0)
    && (forall i: nat | i + 1 < |ring| :: Gap(m, ring, i))
  }

  predicate ListOk(m: Memory, ring: seq<int>, base: int) {
    Linked(m, ring) && Spaced(m, ring, base)
  }

  /** A block clear of every free block and of `base`, and not ending at `base`. */
  predicate Clear(m: Memory, ring: seq<int>, base: int, h: int, n: nat)
    requires AllIn(m, ring)
  {
    && n > 0
    && (h + n < base || base < h)
    && forall i | 0 <= i < |ring| :: h + n <= ring[i] || (ring[i] < h && ring[i] + m[ring[i]].size <= h)
  }

  // ----- cells

  predicate InBlock(m: Memory, ring: seq<int>, i: nat, x: int)
    requires AllIn(m, ring)
  {
    i < |ring| && ring[i] <= x < ring[i] + m[ring[i]].size
  }

  /** Unit `x` belongs to a free block. */
  ghost predicate FreeCell(m: Memory, ring: seq<int>, x: int)
    requires AllIn(m, ring)
  {
    exists i: nat :: InBlock(m, ring, i, x)
  }

  ghost predicate NoneFree(m: Memory, ring: seq<int>, h: int, n: nat)
    requires AllIn(m, ring)
  {
    forall x | h <= x < h + n :: !FreeCell(m, ring, x)
  }

  /** Live blocks keep their size in their header, clear of the free blocks, of `base` and of each other. */
  ghost predicate LiveOk(m: Memory, ring: seq<int>, base: int, live: map<int, nat>)
    requires AllIn(m, ring)
  {
    && (forall h | h in live ::
          h in m && m[h].size == live[h] > 0 && (h + live[h] < base || base < h) && NoneFree(m, ring, h, live[h]))
    && (forall g, h | g in live && h in live :: Ordered(live, g, h))
  }

  predicate Ordered(live: map<int, nat>, g: int, h: int)
    requires g in live && h in live
  {
    g < h ==> g + live[g] <= h
  }

  /** Being clear of the free blocks is holding no free cell. */
  lemma ClearByCells(m: Memory, ring: seq<int>, base: int, h: int, n: nat)
    requires AllIn(m, ring) && Spaced(m, ring, base) && n > 0 && (h + n < base || base < h)
    ensures Clear(m, ring, base, h, n) <==> NoneFree(m, ring, h, n)
    ensures NoneFree(m, ring, h, n) ==> h !in ring
  {
    if NoneFree(m, ring, h, n) {
      forall i: nat | i < |ring|
        ensures h + n <= ring[i] || (ring[i] < h && ring[i] + m[ring[i]].size <= h)
      {
        if ring[i] != base {
          assert InBlock(m, ring, i, ring[i]) && FreeCell(m, ring, ring[i]);
          assert InBlock(m, ring, i, h) ==> FreeCell(m, ring, h);
        }
      }
    }
    if Clear(m, ring, base, h, n) {
      forall x | h <= x < h + n ensures !FreeCell(m, ring, x) {
        forall i: nat ensures !InBlock(m, ring, i, x) {
        }
      }
    }
  }

  /** Only the headers of free and live blocks matter: memory elsewhere may change at will. */
  lemma Frame(m: Memory, m': Memory, ring: seq<int>, base: int, live: map<int, nat>)
    requires ListOk(m, ring, base) && LiveOk(m, ring, base, live)
    requires forall a | a in ring || a in live :: a in m && a in m' && m'[a] == m[a]
    ensures ListOk(m', ring, base) && LiveOk(m', ring, base, live)
    ensures forall x :: FreeCell(m', ring, x) <==> FreeCell(m, ring, x)
  {
    forall i: nat | i < |ring| ensures ring[i] in m' && m'[ring[i]] == m[ring[i]] {
      assert ring[i] in ring;
    }
    forall i: nat | i < |ring| ensures Link(m', ring, i) {
      assert Link(m, ring, i);
    }
    forall i: nat | i + 1 < |ring| ensures Gap(m', ring, i) {
      assert Gap(m, ring, i);
    }
    forall x ensures FreeCell(m', ring, x) <==> FreeCell(m, ring, x) {
      assert forall i: nat :: InBlock(m', ring, i, x) <==> InBlock(m, ring, i, x);
    }
    forall h | h in live ensures NoneFree(m', ring, h, live[h]) {
      assert NoneFree(m, ring, h, live[h]);
    }
  }

  // ----- where a block belongs

  /** Number of list entries below `b`. */
  function Below(ring: seq<int>, b: int): (c: nat)
    ensures c <= |ring|
  {
    if ring == [] || ring[0] > b then 0 else 1 + Below(ring[1..], b)
  }

  lemma {:induction false} BelowSplits(ring: seq<int>, b: int)
    requires forall i, j | 0 <= i < j < |ring| :: ring[i] < ring[j]
    requires b !in ring
    ensures forall i | 0 <= i < |ring| :: ring[i] < b <==> i < Below(ring, b)
  {
    if ring != [] {
      BelowSplits(ring[1..], b);
      forall i | 0 <= i < |ring| ensures ring[i] < b <==> i < Below(ring, b) {
        assert i > 0 ==> ring[i] == ring[1..][i - 1];
      }
    }
  }

  /** The entry before `b` in the ring, the last one if none is below. */
  function Before(ring: seq<int>, b: int): (k: nat)
    requires ring != []
    ensures k < |ring|
  {
    var c := Below(ring, b);
    if c == 0 then |ring| - 1 else c - 1
  }

  /** The test that ends the walk of heap_free, with both its conditions. */
  predicate Stops(p: int, next: int, b: int) {
    (b > p && b < next) || (p >= next && (b > p || b < next))
  }

  /** The walk ends at the entry before the block and nowhere else. */
  lemma StopsAt(m: Memory, ring: seq<int>, base: int, b: int, k: nat)
    requires ListOk(m, ring, base) && b !in ring && k < |ring|
    ensures Stops(ring[k], m[ring[k]].ptr, b) <==> k == Before(ring, b)
  {
    SpacedAscending(m, ring, base);
    BelowSplits(ring, b);
    assert Link(m, ring, k);
    var n := Next(k, |ring|);
    assert ring[k] < b <==> k < Below(ring, b);
    assert ring[n] < b <==> n < Below(ring, b);
  }

  // ----- inserting a block, with the four ways it can meet its neighbours

  function Insert(ring: seq<int>, c: nat, b: int): (r: seq<int>)
    requires c <= |ring|
    ensures |r| == |ring| + 1
    ensures forall i | 0 <= i < |r| :: r[i] == if i < c then ring[i] else if i == c then b else ring[i - 1]
  {
    ring[..c] + [b] + ring[c..]
  }

  function Remove(ring: seq<int>, c: nat): (r: seq<int>)
    requires c < |ring|
    ensures |r| == |ring| - 1
    ensures forall i | 0 <= i < |r| :: r[i] == if i < c then ring[i] else ring[i + 1]
  {
    ring[..c] + ring[c + 1..]
  }

  /** What heap_free writes, given the entries `p` and `next` on either side of the block. */
  function Coalesce(m: Memory, p: int, next: int, b: int): Memory
    requires p in m && next in m && b in m
  {
    var m1 := if b + m[b].size == next
              then m[b := Header(m[next].ptr, m[b].size + m[next].size)]
              else m[b := Header(next, m[b].size)];
    if p + m1[p].size == b
    then m1[p := Header(m1[b].ptr, m1[p].size + m1[b].size)]
    else m1[p := Header(b, m1[p].size)]
  }

  predicate MeetsUp(m: Memory, ring: seq<int>, b: int, c: nat)
    requires b in m
  {
    c < |ring| && b + m[b].size == ring[c]
  }

  predicate MeetsDown(m: Memory, ring: seq<int>, b: int, c: nat)
    requires AllIn(m, ring)
  {
    0 < c <= |ring| && ring[c - 1] + m[ring[c - 1]].size == b
  }

  /** The free list after it. */
  function Coalesced(m: Memory, ring: seq<int>, b: int): seq<int>
    requires b in m && AllIn(m, ring)
  {
    var c := Below(ring, b);
    if MeetsUp(m, ring, b, c) && MeetsDown(m, ring, b, c) then Remove(ring, c)
    else if MeetsUp(m, ring, b, c) then ring[c := b]
    else if MeetsDown(m, ring, b, c) then ring
    else Insert(ring, c, b)
  }

  predicate Fits(m: Memory, ring: seq<int>, base: int, b: int, c: nat) {
    && ListOk(m, ring, base) && b in m && b !in ring && Clear(m, ring, base, b, m[b].size)
    && c <= |ring| && forall i | 0 <= i < |ring| :: ring[i] < b <==> i < c
  }

  function Prev(n: nat, c: nat): nat
    requires c <= n && n > 0
  {
    if c == 0 then n - 1 else c - 1
  }

  function Succ(n: nat, c: nat): nat
    requires c <= n && n > 0
  {
    if c == n then 0 else c
  }

  /** The memory heap_free leaves, case by case. */
  lemma CoalesceCases(m: Memory, ring: seq<int>, base: int, b: int, c: nat)
    requires Fits(m, ring, base, b, c)
    ensures var p, q := ring[Prev(|ring|, c)], ring[Succ(|ring|, c)];
      var m' := Coalesce(m, p, q, b);
      && m[p].ptr == q
      && (MeetsUp(m, ring, b, c) && MeetsDown(m, ring, b, c) ==>
            m' == m[b := Header(m[q].ptr, m[b].size + m[q].size)]
                   [p := Header(m[q].ptr, m[p].size + m[b].size + m[q].size)])
      && (MeetsUp(m, ring, b, c) && !MeetsDown(m, ring, b, c) ==>
            m' == m[b := Header(m[q].ptr, m[b].size + m[q].size)][p := Header(b, m[p].size)])
      && (!MeetsUp(m, ring, b, c) && MeetsDown(m, ring, b, c) ==>
            m' == m[b := Header(q, m[b].size)][p := Header(q, m[p].size + m[b].size)])
      && (!MeetsUp(m, ring, b, c) && !MeetsDown(m, ring, b, c) ==>
            m' == m[b := Header(q, m[b].size)][p := Header(b, m[p].size)])
  {
    SpacedAscending(m, ring, base);
    assert Link(m, ring, Prev(|ring|, c));
    assert Next(Prev(|ring|, c), |ring|) == Succ(|ring|, c);
    assert c == |ring| ==> ring[0] < b;
    assert c == 0 ==> ring[|ring| - 1] > b;
  }

  lemma LinkNone(m: Memory, m': Memory, ring: seq<int>, b: int, c: nat)
    requires Linked(m, ring) && b !in ring && b in m && c <= |ring|
    requires forall i, j | 0 <= i < j < |ring| :: ring[i] < ring[j]
    requires var p, q := ring[Prev(|ring|, c)], ring[Succ(|ring|, c)];
      m' == m[b := Header(q, m[b].size)][p := Header(b, m[p].size)]
    ensures Linked(m', Insert(ring, c, b))
  {
    var r' := Insert(ring, c, b);
    assert AllIn(m', r');
    forall i: nat | i < |r'| ensures Link(m', r', i) {
      if i < c {
        assert Link(m, ring, i);
      } else if i > c {
        assert Link(m, ring, i - 1);
      }
      hide Linked, Insert;
    }
  }

  lemma LinkUp(m: Memory, m': Memory, ring: seq<int>, b: int, c: nat, n: nat)
    requires Linked(m, ring) && b !in ring && b in m && c < |ring|
    requires forall i, j | 0 <= i < j < |ring| :: ring[i] < ring[j]
    requires var p, q := ring[Prev(|ring|, c)], ring[c];
      p != q && m' == m[b := Header(m[q].ptr, n)][p := Header(b, m[p].size)]
    ensures Linked(m', ring[c := b])
  {
    var r' := ring[c := b];
    forall i: nat | i < |r'| ensures Link(m', r', i) {
      assert Link(m, ring, i);
    }
  }

  lemma LinkDown(m: Memory, m': Memory, ring: seq<int>, b: int, c: nat, n: nat)
    requires Linked(m, ring) && b !in ring && b in m && 0 < c <= |ring|
    requires forall i, j | 0 <= i < j < |ring| :: ring[i] < ring[j]
    requires var p, q := ring[c - 1], ring[Succ(|ring|, c)];
      m' == m[b := Header(q, m[b].size)][p := Header(q, n)]
    ensures Linked(m', ring)
  {
    forall i: nat | i < |ring| ensures Link(m', ring, i) {
      assert Link(m, ring, i);
    }
  }

  lemma LinkBoth(m: Memory, m': Memory, ring: seq<int>, b: int, c: nat, n: nat, k: nat)
    requires Linked(m, ring) && b !in ring && b in m && 0 < c < |ring|
    requires forall i, j | 0 <= i < j < |ring| :: ring[i] < ring[j]
    requires var p, q := ring[c - 1], ring[c];
      m' == m[b := Header(m[q].ptr, k)][p := Header(m[q].ptr, n)]
    ensures Linked(m', Remove(ring, c))
  {
    var r' := Remove(ring, c);
    assert Link(m, ring, c);
    forall i: nat | i < |r'| ensures Link(m', r', i) {
      assert Link(m, ring, if i < c then i else i + 1);
    }
  }

  lemma {:induction false} SpacedPair(m: Memory, ring: seq<int>, base: int, i: nat, j: nat)
    requires AllIn(m, ring) && Spaced(m, ring, base) && i < j < |ring|
    ensures ring[i] + m[ring[i]].size < ring[j]
    decreases j
  {
    assert Gap(m, ring, j - 1);
    if i < j - 1 {
      SpacedPair(m, ring, base, i, j - 1);
    }
  }

  lemma SpacedAscending(m: Memory, ring: seq<int>, base: int)
    requires AllIn(m, ring) && Spaced(m, ring, base)
    ensures forall i, j | 0 <= i < j < |ring| :: ring[i] < ring[j]
  {
    forall i: nat, j: nat | i < j < |ring| ensures ring[i] < ring[j] {
      SpacedPair(m, ring, base, i, j);
    }
  }

  lemma KeepsBoth(m: Memory, ring: seq<int>, base: int, b: int, c: nat)
    requires Fits(m, ring, base, b, c) && c == Below(ring, b) && MeetsUp(m, ring, b, c) && MeetsDown(m, ring, b, c)
    ensures ListOk(Coalesce(m, ring[Prev(|ring|, c)], ring[Succ(|ring|, c)], b), Coalesced(m, ring, b), base)
  {
    CoalesceCases(m, ring, base, b, c);
    SpacedAscending(m, ring, base);
    var p, q := ring[Prev(|ring|, c)], ring[Succ(|ring|, c)];
    var m' := Coalesce(m, p, q, b);
    hide Coalesce;
    LinkBoth(m, m', ring, b, c, m'[p].size, m'[b].size);
    SpacedBoth(m, m', ring, base, b, c);
  }

  lemma KeepsUp(m: Memory, ring: seq<int>, base: int, b: int, c: nat)
    requires Fits(m, ring, base, b, c) && c == Below(ring, b) && MeetsUp(m, ring, b, c) && !MeetsDown(m, ring, b, c)
    ensures ListOk(Coalesce(m, ring[Prev(|ring|, c)], ring[Succ(|ring|, c)], b), Coalesced(m, ring, b), base)
  {
    CoalesceCases(m, ring, base, b, c);
    SpacedAscending(m, ring, base);
    var p, q := ring[Prev(|ring|, c)], ring[Succ(|ring|, c)];
    var m' := Coalesce(m, p, q, b);
    hide Coalesce;
    LinkUp(m, m', ring, b, c, m'[b].size);
    SpacedUp(m, m', ring, base, b, c);
  }

  lemma KeepsDown(m: Memory, ring: seq<int>, base: int, b: int, c: nat)
    requires Fits(m, ring, base, b, c) && c == Below(ring, b) && !MeetsUp(m, ring, b, c) && MeetsDown(m, ring, b, c)
    ensures ListOk(Coalesce(m, ring[Prev(|ring|, c)], ring[Succ(|ring|, c)], b), Coalesced(m, ring, b), base)
  {
    CoalesceCases(m, ring, base, b, c);
    SpacedAscending(m, ring, base);
    var p, q := ring[Prev(|ring|, c)], ring[Succ(|ring|, c)];
    var m' := Coalesce(m, p, q, b);
    hide Coalesce;
    LinkDown(m, m', ring, b, c, m'[p].size);
    SpacedDown(m, m', ring, base, b, c);
  }

  lemma KeepsNone(m: Memory, ring: seq<int>, base: int, b: int, c: nat)
    requires Fits(m, ring, base, b, c) && c == Below(ring, b) && !MeetsUp(m, ring, b, c) && !MeetsDown(m, ring, b, c)
    ensures ListOk(Coalesce(m, ring[Prev(|ring|, c)], ring[Succ(|ring|, c)], b), Coalesced(m, ring, b), base)
  {
    CoalesceCases(m, ring, base, b, c);
    SpacedAscending(m, ring, base);
    var p, q := ring[Prev(|ring|, c)], ring[Succ(|ring|, c)];
    var m' := Coalesce(m, p, q, b);
    hide Coalesce;
    LinkNone(m, m', ring, b, c);
    SpacedNone(m, m', ring, base, b, c);
  }

  /** Releasing a block that is clear of the free ones keeps the free list well formed. */
  lemma CoalesceKeeps(m: Memory, ring: seq<int>, base: int, b: int, c: nat)
    requires Fits(m, ring, base, b, c) && c == Below(ring, b)
    ensures ListOk(Coalesce(m, ring[Prev(|ring|, c)], ring[Succ(|ring|, c)], b), Coalesced(m, ring, b), base)
  {
    if MeetsUp(m, ring, b, c) {
      if MeetsDown(m, ring, b, c) { KeepsBoth(m, ring, base, b, c); } else { KeepsUp(m, ring, base, b, c); }
    } else {
      if MeetsDown(m, ring, b, c) { KeepsDown(m, ring, base, b, c); } else { KeepsNone(m, ring, base, b, c); }
    }
  }

  predicate SameSizes(m: Memory, m': Memory, ring: seq<int>, except: set<int>)
    requires AllIn(m, ring) && AllIn(m', ring)
  {
    forall i | 0 <= i < |ring| && ring[i] !in except :: m'[ring[i]].size == m[ring[i]].size
  }

  lemma SpacedNone(m: Memory, m': Memory, ring: seq<int>, base: int, b: int, c: nat)
    requires AllIn(m, ring) && AllIn(m', ring) && Spaced(m, ring, base) && b in m && b in m' && b !in ring
    requires Clear(m, ring, base, b, m[b].size) && SameSizes(m, m', ring, {}) && m'[b].size == m[b].size
    requires c <= |ring| && forall i | 0 <= i < |ring| :: ring[i] < b <==> i < c
    requires !MeetsUp(m, ring, b, c) && !MeetsDown(m, ring, b, c)
    ensures AllIn(m', Insert(ring, c, b)) && Spaced(m', Insert(ring, c, b), base)
  {
    var r' := Insert(ring, c, b);
    var k :| 0 <= k < |ring| && ring[k] == base;
    assert r'[if k < c then k else k + 1] == base;
    forall i: nat | i + 1 < |r'| ensures Gap(m', r', i) {
      if i + 1 < c { assert Gap(m, ring, i); } else if i > c { assert Gap(m, ring, i - 1); }
    }
  }

  lemma SpacedUp(m: Memory, m': Memory, ring: seq<int>, base: int, b: int, c: nat)
    requires AllIn(m, ring) && AllIn(m', ring) && Spaced(m, ring, base) && b in m && b in m' && b !in ring
    requires Clear(m, ring, base, b, m[b].size)
    requires c < |ring| && forall i | 0 <= i < |ring| :: ring[i] < b <==> i < c
    requires MeetsUp(m, ring, b, c) && !MeetsDown(m, ring, b, c)
    requires SameSizes(m, m', ring, {}) && m'[b].size == m[b].size + m[ring[c]].size
    ensures AllIn(m', ring[c := b]) && Spaced(m', ring[c := b], base)
  {
    var r' := ring[c := b];
    var k :| 0 <= k < |ring| && ring[k] == base;
    assert k != c;
    assert r'[k] == base;
    forall i: nat | i + 1 < |r'| ensures Gap(m', r', i) {
      assert Gap(m, ring, i);
    }
  }

  lemma SpacedDown(m: Memory, m': Memory, ring: seq<int>, base: int, b: int, c: nat)
    requires AllIn(m, ring) && AllIn(m', ring) && Spaced(m, ring, base) && b in m && b !in ring
    requires Clear(m, ring, base, b, m[b].size)
    requires 0 < c <= |ring| && forall i | 0 <= i < |ring| :: ring[i] < b <==> i < c
    requires !MeetsUp(m, ring, b, c) && MeetsDown(m, ring, b, c)
    requires SameSizes(m, m', ring, {ring[c - 1]}) && m'[ring[c - 1]].size == m[ring[c - 1]].size + m[b].size
    ensures Spaced(m', ring, base)
  {
    assert ring[c - 1] != base;
    SpacedAscending(m, ring, base);
    forall i: nat | i + 1 < |ring| ensures Gap(m', ring, i) {
      assert Gap(m, ring, i);
    }
  }

  lemma RemoveMember(ring: seq<int>, c: nat, a: int)
    requires c < |ring| && a in ring && a != ring[c]
    ensures a in Remove(ring, c)
  {
    var k :| 0 <= k < |ring| && ring[k] == a;
    assert Remove(ring, c)[if k < c then k else k - 1] == a;
  }

  lemma SpacedBoth(m: Memory, m': Memory, ring: seq<int>, base: int, b: int, c: nat)
    requires AllIn(m, ring) && AllIn(m', ring) && Spaced(m, ring, base) && b in m && b !in ring
    requires Clear(m, ring, base, b, m[b].size)
    requires 0 < c < |ring| && forall i | 0 <= i < |ring| :: ring[i] < b <==> i < c
    requires MeetsUp(m, ring, b, c) && MeetsDown(m, ring, b, c)
    requires SameSizes(m, m', ring, {ring[c - 1]})
    requires m'[ring[c - 1]].size == m[ring[c - 1]].size + m[b].size + m[ring[c]].size
    ensures AllIn(m', Remove(ring, c)) && Spaced(m', Remove(ring, c), base)
  {
    var r' := Remove(ring, c);
    SpacedAscending(m, ring, base);
    RemoveMember(ring, c, base);
    forall i: nat | i + 1 < |r'| ensures Gap(m', r', i) {
      assert Gap(m, ring, if i < c - 1 then i else i + 1);
    }
  }

  // ----- cells of the free list after each change

  lemma CellsNone(m: Memory, ring: seq<int>, m': Memory, r': seq<int>, b: int, c: nat, x: int)
    requires AllIn(m, ring) && AllIn(m', r') && b in m && b in m' && b !in ring && c <= |ring| && !MeetsUp(m, ring, b, c) && !MeetsDown(m, ring, b, c)
    requires r' == Insert(ring, c, b) && AllIn(m', ring) && SameSizes(m, m', ring, {}) && m'[b].size == m[b].size
    ensures FreeCell(m', r', x) <==> FreeCell(m, ring, x) || b <= x < b + m[b].size
  {
    if FreeCell(m', r', x) {
      var i: nat :| InBlock(m', r', i, x);
      assert i == c || InBlock(m, ring, if i < c then i else i - 1, x);
    }
    if FreeCell(m, ring, x) {
      var i: nat :| InBlock(m, ring, i, x);
      assert InBlock(m', r', if i < c then i else i + 1, x);
    }
    if b <= x < b + m[b].size {
      assert InBlock(m', r', c, x);
    }
  }

  lemma CellsUp(m: Memory, ring: seq<int>, m': Memory, r': seq<int>, b: int, c: nat, x: int)
    requires AllIn(m, ring) && AllIn(m', r') && b in m && b in m' && b !in ring && c <= |ring| && MeetsUp(m, ring, b, c) && !MeetsDown(m, ring, b, c)
    requires r' == ring[c := b] && AllIn(m', ring) && SameSizes(m, m', ring, {}) && m'[b].size == m[b].size + m[ring[c]].size
    ensures FreeCell(m', r', x) <==> FreeCell(m, ring, x) || b <= x < b + m[b].size
  {
    if FreeCell(m', r', x) {
      var i: nat :| InBlock(m', r', i, x);
      assert (i == c && b <= x < b + m[b].size) || InBlock(m, ring, i, x);
    }
    if FreeCell(m, ring, x) {
      var i: nat :| InBlock(m, ring, i, x);
      assert InBlock(m', r', i, x);
    }
    if b <= x < b + m[b].size {
      assert InBlock(m', r', c, x);
    }
  }

  lemma CellsDown(m: Memory, ring: seq<int>, m': Memory, r': seq<int>, b: int, c: nat, x: int)
    requires AllIn(m, ring) && AllIn(m', r') && b in m && b in m' && b !in ring && c <= |ring| && !MeetsUp(m, ring, b, c) && MeetsDown(m, ring, b, c)
    requires r' == ring && SameSizes(m, m', ring, {ring[c - 1]}) && m'[ring[c - 1]].size == m[ring[c - 1]].size + m[b].size
    ensures FreeCell(m', r', x) <==> FreeCell(m, ring, x) || b <= x < b + m[b].size
  {
    if FreeCell(m', r', x) {
      var i: nat :| InBlock(m', r', i, x);
      assert (b <= x < b + m[b].size) || InBlock(m, ring, i, x);
    }
    if FreeCell(m, ring, x) {
      var i: nat :| InBlock(m, ring, i, x);
      assert InBlock(m', r', i, x);
    }
    if b <= x < b + m[b].size {
      assert InBlock(m', r', c - 1, x);
    }
  }

  lemma CellsBoth(m: Memory, ring: seq<int>, m': Memory, r': seq<int>, b: int, c: nat, x: int)
    requires AllIn(m, ring) && AllIn(m', r') && b in m && b in m' && b !in ring && c <= |ring| && MeetsUp(m, ring, b, c) && MeetsDown(m, ring, b, c)
    requires r' == Remove(ring, c) && AllIn(m', ring) && SameSizes(m, m', ring, {ring[c - 1]}) && m'[ring[c - 1]].size == m[ring[c - 1]].size + m[b].size + m[ring[c]].size
    ensures FreeCell(m', r', x) <==> FreeCell(m, ring, x) || b <= x < b + m[b].size
  {
    if FreeCell(m', r', x) {
      var i: nat :| InBlock(m', r', i, x);
      assert (b <= x < b + m[b].size) || InBlock(m, ring, c, x) || InBlock(m, ring, if i < c then i else i + 1, x);
    }
    if FreeCell(m, ring, x) {
      var i: nat :| InBlock(m, ring, i, x);
      assert InBlock(m', r', if i < c then i else i - 1, x);
    }
    if b <= x < b + m[b].size {
      assert InBlock(m', r', c - 1, x);
    }
  }

  /** The sizes heap_free leaves, case by case. */
  lemma CoalesceSizes(m: Memory, ring: seq<int>, base: int, b: int, c: nat)
    requires Fits(m, ring, base, b, c)
    ensures var m' := Coalesce(m, ring[Prev(|ring|, c)], ring[Succ(|ring|, c)], b);
      && AllIn(m', ring) && b in m'
      && SameSizes(m, m', ring, if MeetsDown(m, ring, b, c) then {ring[c - 1]} else {})
      && (MeetsDown(m, ring, b, c) ==>
            m'[ring[c - 1]].size ==
            m[ring[c - 1]].size + m[b].size + if MeetsUp(m, ring, b, c) then m[ring[c]].size else 0)
      && (!MeetsDown(m, ring, b, c) ==> m'[b].size == m[b].size + if MeetsUp(m, ring, b, c) then m[ring[c]].size else 0)
  {
    CoalesceCases(m, ring, base, b, c);
    SpacedAscending(m, ring, base);
    hide Coalesce, Spaced, Linked, Clear;
  }

  /** Releasing a block frees exactly its cells. */
  lemma CoalesceCells(m: Memory, ring: seq<int>, base: int, b: int, c: nat, x: int)
    requires Fits(m, ring, base, b, c) && c == Below(ring, b)
    requires var m' := Coalesce(m, ring[Prev(|ring|, c)], ring[Succ(|ring|, c)], b); AllIn(m', Coalesced(m, ring, b))
    ensures var m' := Coalesce(m, ring[Prev(|ring|, c)], ring[Succ(|ring|, c)], b);
      FreeCell(m', Coalesced(m, ring, b), x) <==> FreeCell(m, ring, x) || b <= x < b + m[b].size
  {
    CoalesceSizes(m, ring, base, b, c);
    var m' := Coalesce(m, ring[Prev(|ring|, c)], ring[Succ(|ring|, c)], b);
    var r' := Coalesced(m, ring, b);
    hide Coalesce, FreeCell, Spaced, Linked, Clear, SameSizes, Insert, Remove;
    if MeetsUp(m, ring, b, c) {
      if MeetsDown(m, ring, b, c) { CellsBoth(m, ring, m', r', b, c, x); } else { CellsUp(m, ring, m', r', b, c, x); }
    } else {
      if MeetsDown(m, ring, b, c) { CellsDown(m, ring, m', r', b, c, x); } else { CellsNone(m, ring, m', r', b, c, x); }
    }
  }

  /** Some block ends up at least as large as the one released. */
  lemma CoalesceBig(m: Memory, ring: seq<int>, base: int, b: int, c: nat) returns (i: nat)
    requires Fits(m, ring, base, b, c) && c == Below(ring, b)
    requires var m' := Coalesce(m, ring[Prev(|ring|, c)], ring[Succ(|ring|, c)], b); AllIn(m', Coalesced(m, ring, b))
    ensures var m' := Coalesce(m, ring[Prev(|ring|, c)], ring[Succ(|ring|, c)], b);
      i < |Coalesced(m, ring, b)| && m'[Coalesced(m, ring, b)[i]].size >= m[b].size
  {
    CoalesceCases(m, ring, base, b, c);
    hide Coalesce;
    i := if MeetsDown(m, ring, b, c) then c - 1 else c;
  }

  /** Live blocks other than the one released stay clear. */
  lemma CoalesceLive(m: Memory, ring: seq<int>, base: int, b: int, c: nat, live: map<int, nat>)
    requires Fits(m, ring, base, b, c) && c == Below(ring, b) && LiveOk(m, ring, base, live)
    requires b !in live && forall h | h in live :: h + live[h] <= b || b + m[b].size <= h
    requires var m' := Coalesce(m, ring[Prev(|ring|, c)], ring[Succ(|ring|, c)], b); AllIn(m', Coalesced(m, ring, b))
    ensures var m' := Coalesce(m, ring[Prev(|ring|, c)], ring[Succ(|ring|, c)], b);
      LiveOk(m', Coalesced(m, ring, b), base, live)
  {
    var p := ring[Prev(|ring|, c)];
    var m' := Coalesce(m, p, ring[Succ(|ring|, c)], b);
    var r' := Coalesced(m, ring, b);
    assert forall h | h in m && h != b && h != p :: m'[h] == m[h];
    forall h | h in live ensures h in m' && m'[h].size == live[h] && NoneFree(m', r', h, live[h]) {
      ClearByCells(m, ring, base, h, live[h]);
      forall x | h <= x < h + live[h] ensures !FreeCell(m', r', x) {
        CoalesceCells(m, ring, base, b, c, x);
      }
    }
  }

  lemma PrevStays(m: Memory, ring: seq<int>, base: int, b: int, c: nat)
    requires Fits(m, ring, base, b, c) && c == Below(ring, b)
    ensures ring[Prev(|ring|, c)] in Coalesced(m, ring, b)
  {
    var r', i := Coalesced(m, ring, b), Prev(|ring|, c);
    SpacedAscending(m, ring, base);
    if MeetsUp(m, ring, b, c) {
      assert ring[c] != base;
      assert i != c;
      assert r'[if MeetsDown(m, ring, b, c) || i < c then if i < c then i else i - 1 else i] == ring[i];
    } else if !MeetsDown(m, ring, b, c) {
      assert r'[if i < c then i else i + 1] == ring[i];
    }
  }

  /** All that heap_free establishes. */
  lemma ReleaseFacts(m: Memory, ring: seq<int>, base: int, b: int, c: nat, live: map<int, nat>)
    requires Fits(m, ring, base, b, c) && c == Below(ring, b) && LiveOk(m, ring, base, live)
    requires b !in live && forall h | h in live :: h + live[h] <= b || b + m[b].size <= h
    ensures var m', r' := Coalesce(m, ring[Prev(|ring|, c)], ring[Succ(|ring|, c)], b), Coalesced(m, ring, b);
      && ListOk(m', r', base) && LiveOk(m', r', base, live)
      && ring[Prev(|ring|, c)] in r'
      && HasFit(m', r', m[b].size)
      && forall x :: FreeCell(m', r', x) <==> FreeCell(m, ring, x) || b <= x < b + m[b].size
  {
    CoalesceKeeps(m, ring, base, b, c);
    CoalesceLive(m, ring, base, b, c, live);
    PrevStays(m, ring, base, b, c);
    var i := CoalesceBig(m, ring, base, b, c);
    hide Coalesce, Coalesced, FreeCell, Fits, ListOk, LiveOk;
    var m', r' := Coalesce(m, ring[Prev(|ring|, c)], ring[Succ(|ring|, c)], b), Coalesced(m, ring, b);
    forall x ensures FreeCell(m', r', x) <==> FreeCell(m, ring, x) || b <= x < b + m[b].size {
      CoalesceCells(m, ring, base, b, c, x);
    }
  }

  /** The same, from what heap_free knows: the entry before the block and what it points to. */
  lemma ReleaseAll(m: Memory, ring: seq<int>, base: int, b: int, live: map<int, nat>)
    requires ListOk(m, ring, base) && LiveOk(m, ring, base, live)
    requires b in m && m[b].size > 0 && (b + m[b].size < base || base < b) && NoneFree(m, ring, b, m[b].size)
    requires b !in live && forall h | h in live :: h + live[h] <= b || b + m[b].size <= h
    ensures b !in ring && ring[Before(ring, b)] in m && m[ring[Before(ring, b)]].ptr in m
    ensures var p := ring[Before(ring, b)];
      var m', r' := Coalesce(m, p, m[p].ptr, b), Coalesced(m, ring, b);
      && ListOk(m', r', base) && LiveOk(m', r', base, live)
      && p in r'
      && HasFit(m', r', m[b].size)
      && forall x :: FreeCell(m', r', x) <==> FreeCell(m, ring, x) || b <= x < b + m[b].size
  {
    FitsBelow(m, ring, base, b);
    hide LiveOk, ListOk, FreeCell, Coalesce, Coalesced, HasFit, Fits, NoneFree, Below, MeetsUp, MeetsDown;
    var c := Below(ring, b);
    CoalesceCases(m, ring, base, b, c);
    ReleaseFacts(m, ring, base, b, c, live);
  }

  lemma FitsBelow(m: Memory, ring: seq<int>, base: int, b: int)
    requires ListOk(m, ring, base)
    requires b in m && m[b].size > 0 && (b + m[b].size < base || base < b) && NoneFree(m, ring, b, m[b].size)
    ensures b !in ring && Fits(m, ring, base, b, Below(ring, b)) && AllIn(m, ring) && ring != []
    ensures Before(ring, b) == Prev(|ring|, Below(ring, b))
  {
    ClearByCells(m, ring, base, b, m[b].size);
    SpacedAscending(m, ring, base);
    BelowSplits(ring, b);
  }

  // ----- taking a block

  predicate HasFit(m: Memory, ring: seq<int>, n: nat)
    requires AllIn(m, ring)
  {
    exists i :: 0 <= i < |ring| && m[ring[i]].size >= n
  }

  /** Unlink entry `k`: the entry before it points past it. */
  function Unlinked(m: Memory, ring: seq<int>, k: nat): Memory
    requires AllIn(m, ring) && k < |ring|
  {
    var p := ring[Prev(|ring|, k)];
    m[p := Header(m[ring[k]].ptr, m[p].size)]
  }

  lemma WholeLinks(m: Memory, ring: seq<int>, k: nat)
    requires Linked(m, ring) && |ring| > 1 && k < |ring|
    requires forall i, j | 0 <= i < j < |ring| :: ring[i] < ring[j]
    ensures Linked(Unlinked(m, ring, k), Remove(ring, k))
  {
    var m', r' := Unlinked(m, ring, k), Remove(ring, k);
    assert Link(m, ring, k);
    forall i: nat | i < |r'| ensures Link(m', r', i) {
      assert Link(m, ring, if i < k then i else i + 1);
    }
  }

  lemma WholeGaps(m: Memory, ring: seq<int>, base: int, k: nat)
    requires AllIn(m, ring) && Spaced(m, ring, base) && k < |ring| && m[ring[k]].size > 0
    requires AllIn(Unlinked(m, ring, k), Remove(ring, k))
    ensures Spaced(Unlinked(m, ring, k), Remove(ring, k), base)
  {
    var m', r' := Unlinked(m, ring, k), Remove(ring, k);
    RemoveMember(ring, k, base);
    forall i: nat | i + 1 < |r'| ensures Gap(m', r', i) {
      if i + 1 < k {
        assert Gap(m, ring, i);
      } else if i >= k {
        assert Gap(m, ring, i + 1);
      } else {
        SpacedPair(m, ring, base, i, i + 2);
      }
    }
  }

  lemma TakeWhole(m: Memory, ring: seq<int>, base: int, k: nat)
    requires ListOk(m, ring, base) && k < |ring| && m[ring[k]].size > 0
    ensures ListOk(Unlinked(m, ring, k), Remove(ring, k), base)
  {
    SpacedAscending(m, ring, base);
    var b :| 0 <= b < |ring| && ring[b] == base;
    assert b != k && |ring| > 1;
    WholeLinks(m, ring, k);
    WholeGaps(m, ring, base, k);
  }

  lemma WholeCells(m: Memory, ring: seq<int>, base: int, k: nat, x: int)
    requires ListOk(m, ring, base) && k < |ring|
    requires AllIn(Unlinked(m, ring, k), Remove(ring, k))
    ensures FreeCell(Unlinked(m, ring, k), Remove(ring, k), x) <==> FreeCell(m, ring, x) && !InBlock(m, ring, k, x)
  {
    var m', r' := Unlinked(m, ring, k), Remove(ring, k);
    if FreeCell(m', r', x) {
      var i: nat :| InBlock(m', r', i, x);
      var j := if i < k then i else i + 1;
      assert InBlock(m, ring, j, x);
      if j < k { SpacedPair(m, ring, base, j, k); } else { SpacedPair(m, ring, base, k, j); }
    }
    if FreeCell(m, ring, x) && !InBlock(m, ring, k, x) {
      var i: nat :| InBlock(m, ring, i, x);
      assert InBlock(m', r', if i < k then i else i - 1, x);
    }
  }

  /** Shrink entry `k` by `n` units and write the header of its tail. */
  function Shrunk(m: Memory, ring: seq<int>, k: nat, n: nat, q: int): Memory
    requires AllIn(m, ring) && k < |ring| && n < m[ring[k]].size
  {
    var h := m[ring[k]];
    m[ring[k] := Header(h.ptr, h.size - n)][ring[k] + h.size - n := Header(q, n)]
  }

  lemma TailNotListed(m: Memory, ring: seq<int>, base: int, k: nat, h: int)
    requires AllIn(m, ring) && Spaced(m, ring, base) && k < |ring| && ring[k] < h < ring[k] + m[ring[k]].size
    ensures h !in ring
  {
    forall i: nat | i < |ring| ensures ring[i] != h {
      if i < k { SpacedPair(m, ring, base, i, k); }
      if k < i { SpacedPair(m, ring, base, k, i); }
    }
  }

  lemma TakeTail(m: Memory, ring: seq<int>, base: int, k: nat, n: nat, q: int)
    requires ListOk(m, ring, base) && k < |ring| && 0 < n < m[ring[k]].size
    ensures ListOk(Shrunk(m, ring, k, n, q), ring, base)
  {
    var m', h := Shrunk(m, ring, k, n, q), ring[k] + m[ring[k]].size - n;
    TailNotListed(m, ring, base, k, h);
    SpacedAscending(m, ring, base);
    forall i: nat | i < |ring| ensures Link(m', ring, i) {
      assert Link(m, ring, i);
    }
    forall i: nat | i + 1 < |ring| ensures Gap(m', ring, i) {
      assert Gap(m, ring, i);
    }
  }

  lemma TailCells(m: Memory, ring: seq<int>, base: int, k: nat, n: nat, q: int, x: int)
    requires ListOk(m, ring, base) && k < |ring| && 0 < n < m[ring[k]].size
    requires AllIn(Shrunk(m, ring, k, n, q), ring)
    ensures var h := ring[k] + m[ring[k]].size - n;
      FreeCell(Shrunk(m, ring, k, n, q), ring, x) <==> FreeCell(m, ring, x) && !(h <= x < h + n)
  {
    var m', h := Shrunk(m, ring, k, n, q), ring[k] + m[ring[k]].size - n;
    TailNotListed(m, ring, base, k, h);
    SpacedAscending(m, ring, base);
    if FreeCell(m', ring, x) {
      var i: nat :| InBlock(m', ring, i, x);
      assert InBlock(m, ring, i, x);
      if i < k { SpacedPair(m, ring, base, i, k); }
      if k < i { SpacedPair(m, ring, base, k, i); }
    }
    if FreeCell(m, ring, x) && !(h <= x < h + n) {
      var i: nat :| InBlock(m, ring, i, x);
      assert InBlock(m', ring, i, x);
    }
  }

  /** After taking cells off the free list, the live blocks stay clear and the taken block is one of them. */
  lemma TakeLive(m: Memory, ring: seq<int>, m': Memory, r': seq<int>, base: int, live: map<int, nat>, h: int, n: nat)
    requires AllIn(m, ring) && LiveOk(m, ring, base, live) && AllIn(m', r')
    requires n > 0 && h in m' && m'[h].size == n && (h + n < base || base < h)
    requires forall x | h <= x < h + n :: FreeCell(m, ring, x)
    requires forall x :: FreeCell(m', r', x) <==> FreeCell(m, ring, x) && !(h <= x < h + n)
    requires forall g | g in live :: g in m' && m'[g].size == m[g].size
    ensures h !in live && LiveOk(m', r', base, live[h := n])
  {
    assert FreeCell(m, ring, h);
    forall g | g in live ensures g != h && (g < h ==> g + live[g] <= h) && (h < g ==> h + n <= g) {
      assert NoneFree(m, ring, g, live[g]);
      assert !FreeCell(m, ring, g);
    }
  }

  // ----- the free list is determined by the free cells

  lemma BlockEdges(m: Memory, ring: seq<int>, base: int, i: nat)
    requires AllIn(m, ring) && Spaced(m, ring, base) && i < |ring|
    ensures !FreeCell(m, ring, ring[i] - 1) && !FreeCell(m, ring, ring[i] + m[ring[i]].size)
  {
    var lo, hi := ring[i] - 1, ring[i] + m[ring[i]].size;
    forall j: nat ensures !InBlock(m, ring, j, lo) && !InBlock(m, ring, j, hi) {
      if j >= |ring| || j == i {
      } else if j < i {
        SpacedPair(m, ring, base, j, i);
      } else {
        SpacedPair(m, ring, base, i, j);
      }
    }
  }

  /** Every block of one list is a block of the other, of the same size. */
  lemma SameBlock(m: Memory, ring: seq<int>, m': Memory, ring': seq<int>, base: int, i: nat) returns (j: nat)
    requires AllIn(m, ring) && Spaced(m, ring, base) && AllIn(m', ring') && Spaced(m', ring', base)
    requires forall x :: FreeCell(m, ring, x) <==> FreeCell(m', ring', x)
    requires i < |ring|
    ensures j < |ring'| && ring'[j] == ring[i] && m'[ring'[j]].size == m[ring[i]].size
  {
    var a, n := ring[i], m[ring[i]].size;
    if a == base {
      j :| 0 <= j < |ring'| && ring'[j] == base;
    } else {
      assert InBlock(m, ring, i, a) && FreeCell(m, ring, a);
      j :| InBlock(m', ring', j, a);
      var b, k := ring'[j], m'[ring'[j]].size;
      BlockEdges(m, ring, base, i);
      BlockEdges(m', ring', base, j);
      assert !FreeCell(m', ring', a - 1) && !InBlock(m', ring', j, a - 1);
      assert !FreeCell(m', ring', a + n) && !InBlock(m', ring', j, a + n);
      assert !FreeCell(m, ring, b + k) && !InBlock(m, ring, i, b + k);
    }
  }

  /** Two well-formed free lists over the same free cells are the same list with the same sizes. */
  lemma ListDetermined(m: Memory, ring: seq<int>, m': Memory, ring': seq<int>, base: int)
    requires AllIn(m, ring) && Spaced(m, ring, base) && AllIn(m', ring') && Spaced(m', ring', base)
    requires forall x :: FreeCell(m, ring, x) <==> FreeCell(m', ring', x)
    ensures ring == ring'
    ensures forall a | a in ring :: m[a].size == m'[a].size
  {
    forall i: nat | i < |ring| ensures ring[i] in ring' && m'[ring[i]].size == m[ring[i]].size {
      var j := SameBlock(m, ring, m', ring', base, i);
    }
    forall i: nat | i < |ring'| ensures ring'[i] in ring {
      var j := SameBlock(m', ring', m, ring, base, i);
    }
    SpacedAscending(m, ring, base);
    SpacedAscending(m', ring', base);
    AscendingUnique(ring, ring');
  }

  lemma {:induction false} AscendingUnique(a: seq<int>, b: seq<int>)
    requires forall i, j | 0 <= i < j < |a| :: a[i] < a[j]
    requires forall i, j | 0 <= i < j < |b| :: b[i] < b[j]
    requires forall x :: x in a <==> x in b
    ensures a == b
  {
    if a == [] {
      Prelude.EmptyOrMember(b);
    } else {
      assert a[0] in b && (b == [] || b[0] in a);
      var i :| 0 <= i < |b| && b[i] == a[0];
      var j :| 0 <= j < |a| && a[j] == b[0];
      assert a[0] == b[0];
      forall x ensures x in a[1..] <==> x in b[1..] {
        assert x in a[1..] <==> x in a && x != a[0] by { assert a == [a[0]] + a[1..]; }
        assert x in b[1..] <==> x in b && x != b[0] by { assert b == [b[0]] + b[1..]; }
      }
      AscendingUnique(a[1..], b[1..]);
      assert a == [a[0]] + a[1..] && b == [b[0]] + b[1..];
    }
  }
}
