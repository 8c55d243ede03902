/** Free blocks of the buddy allocator as a map from head page to order: the invariant on such
    maps, the two updates every operation is made of, and what the invariant determines. */
module BuddyBlocks {
  import opened Bits
  import opened Prelude

  const MAX_ORDER: nat := 12

  /** Where a page lies: outside the allocator, or at an index within a zone. */
  datatype Place = Reserved | At(zone: nat, index: nat)

  type Layout = seq<Place>

  /** Free blocks: head page to order. */
  type Blocks = map<nat, nat>

  /** Indices count pages from the base of their zone. */
  predicate Consistent(l: Layout) {
    forall g, h | 0 <= g < |l| && 0 <= h < |l| && l[g].At? && l[h].At? && l[g].zone == l[h].zone ::
      l[h].index - l[g].index == h - g
  }

  predicate Within(k: nat, g: nat, n: nat) {
    g <= k < g + n
  }

  /** `[g, g + n)` lies in one zone. */
  ghost predicate InZone(l: Layout, g: nat, n: nat) {
    && g + n <= |l|
    && (n > 0 ==> l[g].At?)
    && forall k: nat | Within(k, g, n) :: l[k].At? && l[k].zone == l[g].zone
  }

  /** `[g, g + 2^o)` is a block the allocator may hold. */
  ghost predicate Good(l: Layout, g: nat, o: nat) {
    && o <= MAX_ORDER
    && InZone(l, g, Pow2(o))
    && Aligned(l[g].index, o)
  }

  /** The block headed by `h` contains page `g`. */
  predicate Covers(b: Blocks, h: nat, g: nat) {
    h in b && Within(g, h, Pow2(b[h]))
  }

  ghost predicate Free(b: Blocks, g: nat) {
    exists h: nat :: Covers(b, h, g)
  }

  ghost predicate AllFree(b: Blocks, g: nat, n: nat) {
    forall k: nat | Within(k, g, n) :: Free(b, k)
  }

  ghost predicate NoneFree(b: Blocks, g: nat, n: nat) {
    forall k: nat | Within(k, g, n) :: !Free(b, k)
  }

  // ----- the invariant

  ghost predicate AllGood(l: Layout, b: Blocks) {
    forall g | g in b :: Good(l, g, b[g])
  }

  ghost predicate Disjoint(b: Blocks) {
    forall g, h | g in b && h in b && g < h :: g + Pow2(b[g]) <= h
  }

  /** `g` and `h` head the two halves of one larger block. */
  ghost predicate Buddies(l: Layout, b: Blocks, g: nat, h: nat) {
    && g in b && h in b && g < |l| && l[g].At?
    && b[g] == b[h] < MAX_ORDER
    && h == g + Pow2(b[g])
    && h < |l| && l[h].At? && l[h].zone == l[g].zone
    && Aligned(l[g].index, b[g] + 1)
  }

  ghost predicate NoBuddies(l: Layout, b: Blocks) {
    forall g: nat, h: nat :: !Buddies(l, b, g, h)
  }

  /** Free blocks are aligned blocks of one zone, disjoint, and no two are buddies. */
  ghost predicate Canonical(l: Layout, b: Blocks) {
    Consistent(l) && AllGood(l, b) && Disjoint(b) && NoBuddies(l, b)
  }

  // ----- removing and adding a block

  lemma RemoveCanonical(l: Layout, b: Blocks, g: nat)
    requires Canonical(l, b) && g in b
    ensures Canonical(l, b - {g})
  {
    var c := b - {g};
    forall h: nat, k: nat ensures !Buddies(l, c, h, k) {
      assert !Buddies(l, b, h, k);
    }
  }

  lemma RemoveFree(b: Blocks, g: nat, k: nat)
    requires Disjoint(b) && g in b
    ensures Free(b - {g}, k) <==> Free(b, k) && !Within(k, g, Pow2(b[g]))
    ensures Within(k, g, Pow2(b[g])) ==> Free(b, k)
  {
    var c := b - {g};
    if Free(b, k) && !Within(k, g, Pow2(b[g])) {
      var h: nat :| Covers(b, h, k);
      assert Covers(c, h, k);
    }
    if h: nat :| Covers(c, h, k) {
      assert Covers(b, h, k);
      assert h < g ==> h + Pow2(b[h]) <= g;
    }
    assert Within(k, g, Pow2(b[g])) ==> Covers(b, g, k);
  }

  lemma AddFree(b: Blocks, g: nat, o: nat, k: nat)
    requires NoneFree(b, g, Pow2(o))
    ensures g !in b
    ensures Free(b[g := o], k) <==> Free(b, k) || Within(k, g, Pow2(o))
  {
    assert Within(g, g, Pow2(o));
    assert g in b ==> Covers(b, g, g);
    var c := b[g := o];
    if Within(k, g, Pow2(o)) {
      assert Covers(c, g, k);
    } else if h: nat :| Covers(c, h, k) {
      assert Covers(b, h, k);
    }
    if h: nat :| Covers(b, h, k) {
      assert Covers(c, h, k);
    }
  }

  lemma AddDisjoint(b: Blocks, g: nat, o: nat)
    requires Disjoint(b) && NoneFree(b, g, Pow2(o))
    ensures Disjoint(b[g := o])
  {
    AddFree(b, g, o, g);
    forall h | h in b
      ensures h < g ==> h + Pow2(b[h]) <= g
      ensures g < h ==> g + Pow2(o) <= h
    {
      assert Within(g, g, Pow2(o));
      assert !Covers(b, h, g);
      assert Covers(b, h, h);
      assert !Within(h, g, Pow2(o));
    }
  }

  /** The page the source finds at index `i ^ (1 << o)`. */
  function BuddyIndex(i: nat, o: nat): (j: nat)
    ensures j == if Bit(i, o) then i - Pow2(o) else i + Pow2(o)
  {
    XorBit(i, o);
    Xor(i, Pow2(o))
  }

  /** Some block of order `o` heads the buddy of the block at `g`. */
  ghost predicate BuddyFree(l: Layout, b: Blocks, g: nat, o: nat)
    requires g < |l| && l[g].At?
  {
    exists h: nat :: IsBuddy(l, b, g, o, h)
  }

  predicate IsBuddy(l: Layout, b: Blocks, g: nat, o: nat, h: nat)
    requires g < |l| && l[g].At?
  {
    && h in b && b[h] == o
    && h < |l| && l[h].At? && l[h].zone == l[g].zone
    && l[h].index == BuddyIndex(l[g].index, o)
  }

  /** A buddy pair that a new block brings about includes it. */
  lemma BuddiesAdded(l: Layout, b: Blocks, g: nat, o: nat, h: nat, k: nat)
    requires Consistent(l) && g !in b && Good(l, g, o)
    ensures Buddies(l, b[g := o], h, k) ==>
              || Buddies(l, b, h, k)
              || (o < MAX_ORDER && (IsBuddy(l, b, g, o, h) || IsBuddy(l, b, g, o, k)))
  {
    if Buddies(l, b[g := o], h, k) && (h == g || k == g) {
      AlignedSplit(l[h].index, o);
      assert l[k].index == l[h].index + Pow2(o);
    }
  }

  lemma AddNoBuddies(l: Layout, b: Blocks, g: nat, o: nat)
    requires Canonical(l, b) && g !in b && Good(l, g, o)
    requires o < MAX_ORDER ==> !BuddyFree(l, b, g, o)
    ensures NoBuddies(l, b[g := o])
  {
    hide Buddies, IsBuddy, Good;
    var c := b[g := o];
    forall h: nat, k: nat ensures !Buddies(l, c, h, k) {
      BuddiesAdded(l, b, g, o, h, k);
    }
  }

  lemma AddCanonical(l: Layout, b: Blocks, g: nat, o: nat)
    requires Canonical(l, b) && Good(l, g, o)
    requires NoneFree(b, g, Pow2(o))
    requires o < MAX_ORDER ==> !BuddyFree(l, b, g, o)
    ensures Canonical(l, b[g := o])
  {
    AddFree(b, g, o, g);
    AddDisjoint(b, g, o);
    AddNoBuddies(l, b, g, o);
  }

  /** A block and its free buddy, off the free list, make one block of the next order. */
  lemma MergeGood(l: Layout, b: Blocks, g: nat, o: nat, h: nat)
    requires Consistent(l) && AllGood(l, b)
    requires o < MAX_ORDER && Good(l, g, o) && IsBuddy(l, b, g, o, h)
    ensures h == if Bit(l[g].index, o) then g - Pow2(o) else g + Pow2(o)
    ensures Good(l, if g < h then g else h, o + 1)
  {
    hide Bit, Aligned, Consistent, AllGood, BuddyIndex, Pow2;
    BuddyPlace(l, b, g, o, h);
    HalvesInZone(l, if g < h then g else h, o);
  }

  lemma BuddyPlace(l: Layout, b: Blocks, g: nat, o: nat, h: nat)
    requires Consistent(l) && AllGood(l, b)
    requires o < MAX_ORDER && Good(l, g, o) && IsBuddy(l, b, g, o, h)
    ensures h == if Bit(l[g].index, o) then g - Pow2(o) else g + Pow2(o)
    ensures Good(l, h, o) && Aligned(l[if g < h then g else h].index, o + 1)
  {
    assert Good(l, h, o);
    assert l[h].index - l[g].index == h - g;
    AlignStep(l[g].index, o);
    hide AllGood, InZone, Consistent, Aligned, Bit;
  }

  lemma HalvesInZone(l: Layout, m: nat, o: nat)
    requires InZone(l, m, Pow2(o)) && InZone(l, m + Pow2(o), Pow2(o)) && l[m + Pow2(o)].zone == l[m].zone
    ensures InZone(l, m, Pow2(o + 1))
  {
    forall k: nat | Within(k, m, Pow2(o + 1)) ensures l[k].At? && l[k].zone == l[m].zone {
      assert Within(k, m, Pow2(o)) || Within(k, m + Pow2(o), Pow2(o));
    }
  }

  /** The two halves of a block. */
  lemma SplitGood(l: Layout, g: nat, o: nat)
    requires Consistent(l) && o < MAX_ORDER && Good(l, g, o + 1)
    ensures Good(l, g, o) && Good(l, g + Pow2(o), o)
    ensures forall h: nat | h < |l| && l[h].At? && l[h].zone == l[g].zone &&
                            l[h].index == BuddyIndex(l[g + Pow2(o)].index, o) :: h == g
  {
    var m := g + Pow2(o);
    assert forall k: nat | Within(k, g, Pow2(o)) || Within(k, m, Pow2(o)) :: Within(k, g, Pow2(o + 1));
    assert Within(m, m, Pow2(o));
    assert l[m].index - l[g].index == m - g;
    AlignedSplit(l[g].index, o);
  }

  // ----- what the invariant determines

  lemma BlockAllFree(b: Blocks, g: nat)
    requires g in b
    ensures AllFree(b, g, Pow2(b[g]))
  {
    forall k: nat | Within(k, g, Pow2(b[g])) ensures Free(b, k) {
      assert Covers(b, g, k);
    }
  }

  /** A block that shares a page with an aligned run, and is at least as large, contains it. */
  lemma CoverNest(l: Layout, b: Blocks, g: nat, o: nat, h: nat, k: nat)
    requires Consistent(l) && Good(l, g, o) && h in b && Good(l, h, b[h]) && b[h] >= o
    requires Within(k, g, Pow2(o)) && Covers(b, h, k)
    ensures h <= g && g + Pow2(o) <= h + Pow2(b[h])
  {
    assert l[k].zone == l[g].zone == l[h].zone;
    assert l[h].index - l[g].index == h - g;
    AlignedNest(l[g].index, o, l[h].index, b[h]);
  }

  /** A free, aligned run inside one zone lies inside one free block. */
  lemma {:induction false} RunInOneBlock(l: Layout, b: Blocks, g: nat, o: nat) returns (h: nat)
    requires Canonical(l, b) && Good(l, g, o) && AllFree(b, g, Pow2(o))
    ensures h in b && b[h] >= o
    ensures h <= g && g + Pow2(o) <= h + Pow2(b[h])
    decreases o
  {
    if o == 0 {
      assert Within(g, g, Pow2(o));
      h :| Covers(b, h, g);
    } else {
      var p := o - 1;
      var m := g + Pow2(p);
      SplitGood(l, g, p);
      assert forall k: nat | Within(k, g, Pow2(p)) || Within(k, m, Pow2(p)) :: Within(k, g, Pow2(o));
      var x := RunInOneBlock(l, b, g, p);
      var y := RunInOneBlock(l, b, m, p);
      h := JoinHalves(l, b, g, p, x, y);
    }
  }

  /** Of the blocks holding the two halves of an aligned run, one holds the whole run. */
  lemma JoinHalves(l: Layout, b: Blocks, g: nat, o: nat, x: nat, y: nat) returns (h: nat)
    requires Canonical(l, b) && o < MAX_ORDER && Good(l, g, o + 1)
    requires x in b && b[x] >= o && x <= g && g + Pow2(o) <= x + Pow2(b[x])
    requires y in b && b[y] >= o && y <= g + Pow2(o) && g + Pow2(o + 1) <= y + Pow2(b[y])
    ensures h in b && b[h] > o
    ensures h <= g && g + Pow2(o + 1) <= h + Pow2(b[h])
  {
    var m := g + Pow2(o);
    assert Within(g, g, Pow2(o + 1)) && Within(m, g, Pow2(o + 1));
    if b[x] > o {
      CoverNest(l, b, g, o + 1, x, g);
      h := x;
    } else {
      assert x == g;
      assert !Buddies(l, b, g, m);
      assert b[y] == o ==> y == m;
      CoverNest(l, b, g, o + 1, y, m);
      h := y;
    }
  }

  lemma BlockShared(l: Layout, b: Blocks, c: Blocks, g: nat)
    requires Canonical(l, b) && Canonical(l, c) && g in b
    requires forall k: nat :: Free(b, k) <==> Free(c, k)
    ensures g in c && c[g] == b[g]
  {
    BlockAllFree(b, g);
    var h := RunInOneBlock(l, c, g, b[g]);
    BlockAllFree(c, h);
    var k := RunInOneBlock(l, b, h, c[h]);
    assert k <= g < k + Pow2(b[k]);
    assert !(k < g);
    Pow2Monotone(b[g], c[h]);
  }

  /** The free blocks are determined by which pages are free. */
  lemma BlocksDetermined(l: Layout, b: Blocks, c: Blocks)
    requires Canonical(l, b) && Canonical(l, c)
    requires forall k: nat :: Free(b, k) <==> Free(c, k)
    ensures b == c
  {
    forall g | g in b ensures g in c && c[g] == b[g] {
      BlockShared(l, b, c, g);
    }
    forall g | g in c ensures g in b {
      BlockShared(l, c, b, g);
    }
  }

  // ----- free pages as sets, and their number

  function Range(g: nat, n: nat): set<nat> {
    set k: nat | k < g + n && Within(k, g, n)
  }

  lemma {:induction false} RangeSize(g: nat, n: nat)
    ensures |Range(g, n)| == n
  {
    if n == 0 {
      assert Range(g, n) == {};
    } else {
      RangeSize(g, n - 1);
      assert Range(g, n) == Range(g, n - 1) + {g + n - 1};
    }
  }

  ghost function FreeSet(l: Layout, b: Blocks): set<nat> {
    set g: nat | g < |l| && Free(b, g)
  }

  lemma FreeInLayout(l: Layout, b: Blocks, g: nat)
    requires AllGood(l, b)
    ensures Free(b, g) <==> g in FreeSet(l, b)
  {
    if h: nat :| Covers(b, h, g) {
      assert Good(l, h, b[h]);
    }
  }

  lemma RemoveSet(l: Layout, b: Blocks, g: nat)
    requires AllGood(l, b) && Disjoint(b) && g in b
    ensures FreeSet(l, b - {g}) == FreeSet(l, b) - Range(g, Pow2(b[g]))
    ensures Range(g, Pow2(b[g])) <= FreeSet(l, b)
  {
    assert Good(l, g, b[g]);
    forall k: nat ensures Free(b - {g}, k) <==> Free(b, k) && !Within(k, g, Pow2(b[g]))
                  ensures Within(k, g, Pow2(b[g])) ==> Free(b, k)
    {
      RemoveFree(b, g, k);
    }
  }

  lemma AddSet(l: Layout, b: Blocks, g: nat, o: nat)
    requires Canonical(l, b) && Good(l, g, o) && NoneFree(b, g, Pow2(o))
    ensures g !in b
    ensures FreeSet(l, b[g := o]) == FreeSet(l, b) + Range(g, Pow2(o))
  {
    AddFree(b, g, o, g);
    forall k: nat ensures Free(b[g := o], k) <==> Free(b, k) || Within(k, g, Pow2(o)) {
      AddFree(b, g, o, k);
    }
  }

  lemma SetNoneFree(l: Layout, b: Blocks, g: nat, n: nat)
    requires Canonical(l, b) && Range(g, n) !! FreeSet(l, b)
    ensures NoneFree(b, g, n)
  {
    forall k: nat | Within(k, g, n) ensures !Free(b, k) {
      assert k in Range(g, n);
      FreeInLayout(l, b, k);
    }
  }

  // ----- free lists and their counters

  /** List `o` enumerates the heads of order `o`, and counter `o` is its length. */
  ghost predicate ListsMatch(b: Blocks, lists: seq<seq<nat>>, counts: seq<int>) {
    && |lists| == |counts| == MAX_ORDER + 1
    && (forall o, g | 0 <= o <= MAX_ORDER :: g in lists[o] <==> g in b && b[g] == o)
    && (forall o | 0 <= o <= MAX_ORDER :: Distinct(lists[o]))
    && (forall o | 0 <= o <= MAX_ORDER :: counts[o] == |lists[o]|)
  }

  lemma ListsRemove(b: Blocks, lists: seq<seq<nat>>, counts: seq<int>, g: nat)
    requires ListsMatch(b, lists, counts) && g in b && b[g] <= MAX_ORDER
    ensures g in lists[b[g]]
    ensures var o := b[g];
      ListsMatch(b - {g}, lists[o := Drop(lists[o], g)], counts[o := counts[o] - 1])
  {
    DropMembers(lists[b[g]], g);
  }

  lemma ListsAdd(b: Blocks, lists: seq<seq<nat>>, counts: seq<int>, g: nat, o: nat)
    requires ListsMatch(b, lists, counts) && g !in b && o <= MAX_ORDER
    ensures ListsMatch(b[g := o], lists[o := [g] + lists[o]], counts[o := counts[o] + 1])
  {
    assert g !in lists[o];
  }

  // ----- accounting

  /** Sum of `counts[o] * 2^o` over the orders below `o`. */
  function WeightedCount(counts: seq<int>, o: nat): int
    requires o <= |counts|
  {
    if o == 0 then 0 else WeightedCount(counts, o - 1) + counts[o - 1] * Pow2(o - 1)
  }

  /** The blocks of order below `o`, and the first `k` of list `o`. */
  ghost function Part(b: Blocks, lists: seq<seq<nat>>, o: nat, k: nat): Blocks
    requires o <= |lists| && (o < |lists| ==> k <= |lists[o]|)
  {
    map g | g in b && (b[g] < o || (b[g] == o < |lists| && g in lists[o][..k])) :: b[g]
  }

  lemma {:induction false} PartSize(l: Layout, b: Blocks, lists: seq<seq<nat>>, counts: seq<int>, o: nat, k: nat)
    requires AllGood(l, b) && Disjoint(b) && ListsMatch(b, lists, counts)
    requires o <= |lists| && if o < |lists| then k <= |lists[o]| else k == 0
    ensures |FreeSet(l, Part(b, lists, o, k))| == WeightedCount(counts, o) + k * Pow2(o)
    decreases o, k
  {
    hide FreeSet, ListsMatch, Good, AllGood, Disjoint;
    var c := Part(b, lists, o, k);
    PartLengths(b, lists, counts);
    PartGood(l, b, lists, o, k);
    if k > 0 {
      PartSize(l, b, lists, counts, o, k - 1);
      PartPeel(b, lists, counts, o, k);
      PeelSize(l, c, lists[o][k - 1]);
      assert k * Pow2(o) == (k - 1) * Pow2(o) + Pow2(o);
    } else if o > 0 {
      PartSize(l, b, lists, counts, o - 1, |lists[o - 1]|);
      PartNext(b, lists, o);
    } else {
      assert c == map[];
      EmptyFree(l);
    }
  }

  lemma PartGood(l: Layout, b: Blocks, lists: seq<seq<nat>>, o: nat, k: nat)
    requires AllGood(l, b) && Disjoint(b) && o <= |lists| && if o < |lists| then k <= |lists[o]| else k == 0
    ensures AllGood(l, Part(b, lists, o, k)) && Disjoint(Part(b, lists, o, k))
  {
  }

  lemma PartNext(b: Blocks, lists: seq<seq<nat>>, o: nat)
    requires 0 < o <= |lists| && forall g :: g in lists[o - 1] <==> g in b && b[g] == o - 1
    ensures Part(b, lists, o, 0) == Part(b, lists, o - 1, |lists[o - 1]|)
  {
    var last := lists[o - 1];
    assert last[..|last|] == last;
  }

  lemma PartLengths(b: Blocks, lists: seq<seq<nat>>, counts: seq<int>)
    requires ListsMatch(b, lists, counts)
    ensures |lists| == |counts| == MAX_ORDER + 1
    ensures forall o | 0 <= o <= MAX_ORDER :: counts[o] == |lists[o]|
    ensures forall o, g | 0 <= o <= MAX_ORDER :: g in lists[o] <==> g in b && b[g] == o
  {
  }

  lemma EmptyFree(l: Layout)
    ensures FreeSet(l, map[]) == {}
  {
  }

  lemma PartPeel(b: Blocks, lists: seq<seq<nat>>, counts: seq<int>, o: nat, k: nat)
    requires ListsMatch(b, lists, counts) && o < |lists| && 0 < k <= |lists[o]|
    ensures var g, c := lists[o][k - 1], Part(b, lists, o, k);
      g in c && c[g] == o && c - {g} == Part(b, lists, o, k - 1)
  {
    var g := lists[o][k - 1];
    assert g in lists[o] && lists[o][..k] == lists[o][..k - 1] + [g];
    assert g !in lists[o][..k - 1];
  }

  lemma PeelSize(l: Layout, b: Blocks, g: nat)
    requires AllGood(l, b) && Disjoint(b) && g in b
    ensures |FreeSet(l, b)| == |FreeSet(l, b - {g})| + Pow2(b[g])
  {
    RemoveSet(l, b, g);
    RangeSize(g, Pow2(b[g]));
  }

  /** The weighted counters add up to exactly the number of free pages. */
  lemma CountIsFreePages(l: Layout, b: Blocks, lists: seq<seq<nat>>, counts: seq<int>)
    requires AllGood(l, b) && Disjoint(b) && ListsMatch(b, lists, counts)
    ensures WeightedCount(counts, MAX_ORDER + 1) == |FreeSet(l, b)|
  {
    PartSize(l, b, lists, counts, MAX_ORDER + 1, 0);
    forall g | g in b ensures b[g] < MAX_ORDER + 1 {
      assert Good(l, g, b[g]);
    }
    assert Part(b, lists, MAX_ORDER + 1, 0) == b;
  }
}
