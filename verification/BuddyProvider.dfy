/** The buddy allocator: page descriptors, free lists and counters updated in place.

    A page is named by its number in the page array. A failed KDEBUG_ASSERT, which stops the
    kernel, is a result of its own; the assertions written as `assert` below never fail. */
module BuddyProvider {
  import opened Bits
  import opened BuddyBlocks
  import opened Prelude

  /** A page descriptor. `head` is the PROPERTY flag; `property` is then the order of the block. */
  datatype Page = Page(reserved: bool, head: bool, property: nat, ref: nat, zone: nat)

  datatype AllocResult = Panic | Null | Pages(base: nat)

  /** An unreserved page lies at or above the base of its zone. */
  predicate ZonesFit(zones: seq<nat>, pages: seq<Page>) {
    forall g | 0 <= g < |pages| && !pages[g].reserved ::
      pages[g].zone < |zones| && zones[pages[g].zone] <= g
  }

  function PlaceOf(zones: seq<nat>, p: Page, g: nat): Place {
    if p.reserved || p.zone >= |zones| || zones[p.zone] > g then Reserved
    else At(p.zone, g - zones[p.zone])
  }

  function LayoutOf(zones: seq<nat>, pages: seq<Page>): Layout {
    seq(|pages|, g requires 0 <= g < |pages| => PlaceOf(zones, pages[g], g))
  }

  function BlocksOf(pages: seq<Page>): Blocks {
    map g: nat | g < |pages| && pages[g].head :: pages[g].property
  }

  function RefsOf(pages: seq<Page>): (r: seq<nat>)
    ensures |r| == |pages| && forall k | 0 <= k < |r| :: r[k] == pages[k].ref
  {
    seq(|pages|, k requires 0 <= k < |pages| => pages[k].ref)
  }

  lemma LayoutConsistent(zones: seq<nat>, pages: seq<Page>)
    ensures Consistent(LayoutOf(zones, pages))
  {
  }

  lemma ClearHead(zones: seq<nat>, pages: seq<Page>, g: nat)
    requires g < |pages|
    ensures var q := pages[g := pages[g].(head := false)];
      && LayoutOf(zones, q) == LayoutOf(zones, pages) && BlocksOf(q) == BlocksOf(pages) - {g}
      && RefsOf(q) == RefsOf(pages)
  {
  }

  lemma SetHead(zones: seq<nat>, pages: seq<Page>, g: nat, o: nat)
    requires g < |pages|
    ensures var q := pages[g := pages[g].(property := o, head := true)];
      && LayoutOf(zones, q) == LayoutOf(zones, pages) && BlocksOf(q) == BlocksOf(pages)[g := o]
      && RefsOf(q) == RefsOf(pages)
  {
  }

  /** PROPERTY is set exactly on the listed heads, counters are list lengths, and the free blocks
      are canonical. */
  ghost predicate ValidState(zones: seq<nat>, pages: seq<Page>, lists: seq<seq<nat>>, counts: seq<int>) {
    && ZonesFit(zones, pages)
    && ListsMatch(BlocksOf(pages), lists, counts)
    && Canonical(LayoutOf(zones, pages), BlocksOf(pages))
  }

  lemma UnlistValid(zones: seq<nat>, pages: seq<Page>, lists: seq<seq<nat>>, counts: seq<int>, g: nat)
    requires ValidState(zones, pages, lists, counts) && g in BlocksOf(pages)
    ensures |lists| == |counts| == MAX_ORDER + 1
    ensures pages[g].property <= MAX_ORDER && g in lists[pages[g].property]
    ensures var o := pages[g].property;
      ValidState(zones, pages[g := pages[g].(head := false)],
                 lists[o := Drop(lists[o], g)], counts[o := counts[o] - 1])
  {
    var b := BlocksOf(pages);
    HeadFacts(zones, pages, lists, counts, g);
    hide Drop, Canonical, ListsMatch, Good, LayoutOf, BlocksOf, ZonesFit;
    ClearHead(zones, pages, g);
    ListsRemove(b, lists, counts, g);
    RemoveCanonical(LayoutOf(zones, pages), b, g);
  }

  lemma HeadFacts(zones: seq<nat>, pages: seq<Page>, lists: seq<seq<nat>>, counts: seq<int>, g: nat)
    requires ValidState(zones, pages, lists, counts) && g in BlocksOf(pages)
    ensures |lists| == |counts| == MAX_ORDER + 1 && g < |pages|
    ensures BlocksOf(pages)[g] == pages[g].property <= MAX_ORDER
    ensures Good(LayoutOf(zones, pages), g, pages[g].property)
    ensures ZonesFit(zones, pages[g := pages[g].(head := false)])
  {
    assert Good(LayoutOf(zones, pages), g, BlocksOf(pages)[g]);
  }

  lemma ListValid(zones: seq<nat>, pages: seq<Page>, lists: seq<seq<nat>>, counts: seq<int>, g: nat, o: nat)
    requires ValidState(zones, pages, lists, counts)
    requires Good(LayoutOf(zones, pages), g, o) && NoneFree(BlocksOf(pages), g, Pow2(o))
    requires o < MAX_ORDER ==> !BuddyFree(LayoutOf(zones, pages), BlocksOf(pages), g, o)
    ensures |lists| == |counts| == MAX_ORDER + 1
    ensures g !in BlocksOf(pages)
    ensures ValidState(zones, pages[g := pages[g].(property := o, head := true)],
                       lists[o := [g] + lists[o]], counts[o := counts[o] + 1])
  {
    var l, b := LayoutOf(zones, pages), BlocksOf(pages);
    SetHead(zones, pages, g, o);
    AddFree(b, g, o, g);
    AddCanonical(l, b, g, o);
    ListsAdd(b, lists, counts, g, o);
  }

  lemma NotHead(b: Blocks, g: nat, n: nat, p: nat)
    requires NoneFree(b, g, n) && Within(p, g, n)
    ensures p !in b
  {
    assert p in b ==> Covers(b, p, p);
  }

  // ----- what an allocation and a release do to the free blocks

  /** The bits of a number without its leading zeros. */
  function Width(n: nat): (w: nat)
    ensures n > 0 ==> w > 0 && Pow2(w - 1) <= n
    ensures n < Pow2(w)
  {
    if n == 0 then 0 else 1 + Width(n / 2)
  }

  /** powerof2_roundup: a power of two is doubled as well. */
  function RoundUp(n: nat): nat {
    Pow2(Width(n))
  }

  /** log2 for size_t: one more than the logarithm. */
  function Log2(n: nat): nat {
    if n < 2 then 1 else 1 + Log2(n / 2)
  }

  lemma {:induction false} Log2Pow2(k: nat)
    ensures Log2(Pow2(k)) == k + 1
  {
    if k > 0 {
      Log2Pow2(k - 1);
      assert Pow2(k) / 2 == Pow2(k - 1);
    }
  }

  /** get_order. */
  function GetOrder(n: nat): (o: nat)
    requires n > 0
    ensures n <= Pow2(o)
  {
    Log2Pow2(Width(n));
    Log2(RoundUp(n))
  }

  /** The order asked for is two above the floor of the logarithm: twice the pages requested fit, and four times
      as many would not. */
  lemma OrderCovers(n: nat)
    requires n > 0
    ensures GetOrder(n) == FloorLog2(n) + 2
    ensures 2 * n < Pow2(GetOrder(n)) <= 4 * n
  {
    Log2Pow2(Width(n));
    var k, w := FloorLog2(n), Width(n);
    assert k + 1 == w by {
      if k + 1 < w { Pow2Monotone(k + 1, w - 1); }
      if w < k + 1 { Pow2Monotone(w, k); }
    }
    assert Pow2(k + 2) == 2 * Pow2(k + 1) == 4 * Pow2(k);
  }

  /** Allocation stops the kernel exactly for requests of 2048 pages or more. */
  lemma OrderLimit(n: nat)
    requires n > 0
    ensures GetOrder(n) > MAX_ORDER <==> n >= 2048
  {
    OrderCovers(n);
    assert Pow2(11) == 2048;
    var k := FloorLog2(n);
    if k >= 11 { Pow2Monotone(11, k); }
    if k + 1 <= 11 { Pow2Monotone(k + 1, 11); }
  }

  /** Some aligned block of `2^o` pages of one zone is entirely free. */
  ghost predicate HasFreeRun(l: Layout, b: Blocks, o: nat) {
    exists g: nat :: Good(l, g, o) && AllFree(b, g, Pow2(o))
  }

  ghost predicate SmallestSufficient(b: Blocks, g: nat, o: nat) {
    g in b && o <= b[g] && forall h | h in b && o <= b[h] :: b[g] <= b[h]
  }

  /** The block at `g` is at the front of the list of its order. */
  predicate FrontOf(lists: seq<seq<nat>>, b: Blocks, g: nat) {
    g in b && b[g] < |lists| && lists[b[g]] != [] && lists[b[g]][0] == g
  }

  /** `n` pages at `g` go from free to used and nothing else changes hands. */
  ghost predicate Allocated(l: Layout, b: Blocks, c: Blocks, g: nat, n: nat) {
    && Canonical(l, c)
    && InZone(l, g, n)
    && Range(g, n) <= FreeSet(l, b)
    && FreeSet(l, c) == FreeSet(l, b) - Range(g, n)
  }

  ghost predicate Released(l: Layout, b: Blocks, c: Blocks, g: nat, n: nat) {
    && Canonical(l, c)
    && FreeSet(l, c) == FreeSet(l, b) + Range(g, n)
  }

  /** The reference counts of `n` pages from `g` are reset, and no others change. */
  ghost predicate Zeroed(r: seq<nat>, r0: seq<nat>, g: nat, n: nat) {
    |r| == |r0| && forall k: nat | k < |r| :: r[k] == if Within(k, g, n) then 0 else r0[k]
  }

  /** An aligned block of twice the largest order lies inside `n` pages from index `i`. */
  ghost predicate HoldsOversize(i: nat, n: nat) {
    exists j: nat :: Oversize(i, n, j)
  }

  predicate Oversize(i: nat, n: nat, j: nat) {
    i <= j && j + Pow2(MAX_ORDER + 1) <= i + n && Aligned(j, MAX_ORDER + 1)
  }

  /** One round of coalescing: the block at `g` takes its free buddy `h` off the list, and the
      union is the block of the next order at the index with the order's bit cleared. */
  lemma MergeStep(l: Layout, b: Blocks, g: nat, o: nat, h: nat)
    requires Canonical(l, b) && o < MAX_ORDER && Good(l, g, o) && IsBuddy(l, b, g, o, h)
    requires Range(g, Pow2(o)) !! FreeSet(l, b)
    ensures var m := if g < h then g else h;
      && Good(l, m, o + 1)
      && l[m].index == And(l[g].index, Xor(l[g].index, Pow2(o)))
      && FreeSet(l, b - {h}) + Range(m, Pow2(o + 1)) == FreeSet(l, b) + Range(g, Pow2(o))
      && Range(m, Pow2(o + 1)) !! FreeSet(l, b - {h})
  {
    var m := if g < h then g else h;
    MergeGood(l, b, g, o, h);
    AndXor(l[g].index, o);
    assert l[h].index - l[g].index == h - g;
    RemoveSet(l, b, h);
    RangeJoin(m, o);
    assert Range(m, Pow2(o + 1)) == Range(g, Pow2(o)) + Range(h, Pow2(o));
  }

  lemma RangeJoin(m: nat, o: nat)
    ensures Range(m, Pow2(o + 1)) == Range(m, Pow2(o)) + Range(m + Pow2(o), Pow2(o))
  {
    var p := Pow2(o);
    assert Pow2(o + 1) == 2 * p;
    assert forall k: nat :: Within(k, m, 2 * p) <==> Within(k, m, p) || Within(k, m + p, p);
  }

  /** One round of splitting: the upper half of a used block becomes a free block. */
  lemma SplitStep(l: Layout, b: Blocks, g: nat, o: nat)
    requires Canonical(l, b) && o < MAX_ORDER && Good(l, g, o + 1)
    requires Range(g, Pow2(o + 1)) !! FreeSet(l, b)
    ensures Good(l, g, o) && Good(l, g + Pow2(o), o)
    ensures NoneFree(b, g + Pow2(o), Pow2(o))
    ensures !BuddyFree(l, b, g + Pow2(o), o)
    ensures var c := b[g + Pow2(o) := o];
      && FreeSet(l, c) + Range(g, Pow2(o)) == FreeSet(l, b) + Range(g, Pow2(o + 1))
      && Range(g, Pow2(o)) !! FreeSet(l, c)
  {
    var m := g + Pow2(o);
    RangeJoin(g, o);
    SplitGood(l, g, o);
    SetNoneFree(l, b, m, Pow2(o));
    SetNoneFree(l, b, g, Pow2(o + 1));
    NotHead(b, g, Pow2(o + 1), g);
    AddSet(l, b, m, o);
    RangesApart(g, m, Pow2(o));
  }

  lemma RangesApart(g: nat, m: nat, n: nat)
    requires m == g + n
    ensures Range(g, n) !! Range(m, n)
  {
    forall k: nat ensures k !in Range(g, n) || k !in Range(m, n) {
      assert !Within(k, g, n) || !Within(k, m, n);
    }
  }

  /** Passing over a block whose order's bit is set loses no oversize block. */
  lemma OversizeStep(i: nat, n: nat, o: nat)
    requires o <= MAX_ORDER && Aligned(i, o) && Bit(i, o) && n >= Pow2(o)
    ensures HoldsOversize(i, n) <==> HoldsOversize(i + Pow2(o), n - Pow2(o))
  {
    hide Pow2, Aligned, Bit;
    if HoldsOversize(i, n) {
      var j: nat :| Oversize(i, n, j);
      AlignDown(j, o, MAX_ORDER + 1);
      AlignDown(j, o + 1, MAX_ORDER + 1);
      AlignStep(i, o);
      if j < i + Pow2(o) {
        AlignedNest(j, o, i, o);
      }
      assert Oversize(i + Pow2(o), n - Pow2(o), j);
    }
    if HoldsOversize(i + Pow2(o), n - Pow2(o)) {
      var j: nat :| Oversize(i + Pow2(o), n - Pow2(o), j);
      assert Oversize(i, n, j);
    }
  }

  lemma OversizeHere(i: nat, n: nat)
    requires Aligned(i, MAX_ORDER + 1) && n >= Pow2(MAX_ORDER + 1)
    ensures HoldsOversize(i, n)
  {
    assert Oversize(i, n, i);
  }

  lemma OversizeNone(i: nat, n: nat)
    requires n < Pow2(MAX_ORDER + 1)
    ensures !HoldsOversize(i, n)
  {
  }

  /** A run of pages, cut after its first `m`. */
  lemma RunCut(l: Layout, g: nat, n: nat, m: nat)
    requires Consistent(l) && InZone(l, g, n) && m <= n
    ensures InZone(l, g, m) && InZone(l, g + m, n - m)
    ensures Range(g, n) == Range(g, m) + Range(g + m, n - m)
    ensures Range(g, m) !! Range(g + m, n - m)
    ensures m < n ==> l[g].At? && l[g + m] == At(l[g].zone, l[g].index + m)
  {
    assert forall k: nat :: Within(k, g, n) <==> Within(k, g, m) || Within(k, g + m, n - m);
    assert forall k: nat :: !(Within(k, g, m) && Within(k, g + m, n - m));
    assert m < n ==> Within(g + m, g, n);
  }

  /** An aligned free run exists exactly when some free block is large enough. */
  lemma FreeRunExists(l: Layout, b: Blocks, o: nat)
    requires Canonical(l, b)
    ensures HasFreeRun(l, b, o) <==> exists h :: h in b && o <= b[h]
  {
    if HasFreeRun(l, b, o) {
      var g: nat :| Good(l, g, o) && AllFree(b, g, Pow2(o));
      var h := RunInOneBlock(l, b, g, o);
    }
    if h :| h in b && o <= b[h] {
      assert Good(l, h, b[h]);
      BlockAllFree(b, h);
      Pow2Monotone(o, b[h]);
      AlignDown(l[h].index, o, b[h]);
      assert forall k: nat | Within(k, h, Pow2(o)) :: Within(k, h, Pow2(b[h]));
      assert Good(l, h, o) && AllFree(b, h, Pow2(o));
    }
  }

  /** The inner loop of free: halve the block size until it fits. */
  method LargestFit(n: nat, order0: nat, orderSize0: nat) returns (order: nat, orderSize: nat)
    requires 0 < n < orderSize0 == Pow2(order0)
    ensures order < order0 && orderSize == Pow2(order) <= n < 2 * orderSize
  {
    order, orderSize := order0, orderSize0;
    while n < orderSize
      invariant order <= order0 && orderSize == Pow2(order)
      invariant n < 2 * orderSize
      decreases order
    {
      order, orderSize := order - 1, orderSize / 2;
    }
  }

  class Provider {
    const zones: seq<nat>
    var pages: seq<Page>
    var lists: seq<seq<nat>>
    var counts: seq<int>

    ghost function Lay(): Layout
      reads this
    {
      LayoutOf(zones, pages)
    }

    ghost function Free(): Blocks
      reads this
    {
      BlocksOf(pages)
    }

    ghost function Refs(): seq<nat>
      reads this
    {
      RefsOf(pages)
    }

    ghost function FreePages(): set<nat>
      reads this
    {
      FreeSet(Lay(), Free())
    }

    ghost predicate Valid()
      reads this
    {
      ValidState(zones, pages, lists, counts)
    }

    /** page_to_index. */
    function PageToIndex(g: nat): nat
      reads this
      requires g < |pages| && !pages[g].reserved && ZonesFit(zones, pages)
    {
      g - zones[pages[g].zone]
    }

    /** is_buddy_page. */
    predicate IsBuddyPage(h: nat, order: nat, zone: nat)
      reads this
    {
      && h < |pages|
      && pages[h].zone == zone
      && !pages[h].reserved && pages[h].head && pages[h].property == order
    }

    lemma PlaceFacts(g: nat)
      requires Valid() && g < |Lay()| && Lay()[g].At?
      ensures |Lay()| == |pages| && !pages[g].reserved && ZonesFit(zones, pages)
      ensures Lay()[g] == At(pages[g].zone, PageToIndex(g))
      ensures pages[g].zone < |zones| && zones[pages[g].zone] + PageToIndex(g) == g
    {
    }

    lemma BuddyTest(g: nat, order: nat)
      requires Valid() && g < |pages| && !pages[g].reserved
      ensures Lay()[g] == At(pages[g].zone, PageToIndex(g))
      ensures var h := zones[pages[g].zone] + BuddyIndex(PageToIndex(g), order);
        && (IsBuddyPage(h, order, pages[g].zone) ==> IsBuddy(Lay(), Free(), g, order, h))
        && (!IsBuddyPage(h, order, pages[g].zone) ==> !BuddyFree(Lay(), Free(), g, order))
    {
    }

    /** Take the block at `g` off its list: count, link and PROPERTY flag. */
    method Unlist(g: nat)
      requires Valid() && g in Free()
      modifies this
      ensures Valid() && Lay() == old(Lay())
      ensures Free() == old(Free()) - {g}
      ensures Refs() == old(Refs())
    {
      hide ZonesFit, LayoutOf, RefsOf, Canonical, ListsMatch, Drop;
      var o := pages[g].property;
      UnlistValid(zones, pages, lists, counts, g);
      ClearHead(zones, pages, g);
      counts := counts[o := counts[o] - 1];
      lists := lists[o := Drop(lists[o], g)];
      pages := pages[g := pages[g].(head := false)];
    }

    /** Put a block at the front of its list: order, PROPERTY flag, count and link. */
    method List(g: nat, o: nat)
      requires Valid() && Good(Lay(), g, o)
      requires NoneFree(Free(), g, Pow2(o))
      requires o < MAX_ORDER ==> !BuddyFree(Lay(), Free(), g, o)
      modifies this
      ensures Valid() && Lay() == old(Lay())
      ensures g !in old(Free()) && Free() == old(Free())[g := o]
      ensures Refs() == old(Refs())
    {
      assert g < |pages|;
      hide ZonesFit, LayoutOf, BlocksOf, RefsOf, Canonical, NoneFree, BuddyFree, Pow2, ListsMatch, Good, ValidState;
      ListValid(zones, pages, lists, counts, g, o);
      SetHead(zones, pages, g, o);
      pages := pages[g := pages[g].(property := o, head := true)];
      counts := counts[o := counts[o] + 1];
      lists := lists[o := [g] + lists[o]];
    }

    /** The first loop of do_free: check and reset every page of the block. */
    method ResetPages(base: nat, n: nat)
      requires Valid() && InZone(Lay(), base, n) && NoneFree(Free(), base, n)
      modifies this`pages
      ensures Valid() && Lay() == old(Lay()) && Free() == old(Free())
      ensures Zeroed(Refs(), old(Refs()), base, n)
    {
      for p := base to base + n
        invariant |pages| == old(|pages|)
        invariant forall k | 0 <= k < |pages| ::
          pages[k] == if base <= k < p then old(pages[k]).(ref := 0) else old(pages[k])
      {
        assert Within(p, base, n) && old(Lay())[p].At?;
        assert !pages[p].reserved;
        NotHead(old(Free()), base, n, p);
        assert !pages[p].head;
        pages := pages[p := pages[p].(ref := 0)];
      }
      assert Lay() == old(Lay());
      assert Free() == old(Free());
    }

    /** Partway through coalescing: the block of order `order` at `g`, which is index `index` of
        zone `zone`, belongs to no list, and with the listed blocks makes up the pages `goal`. */
    ghost predicate Merging(l: Layout, goal: set<nat>, refs: seq<nat>, g: nat, order: nat, zone: nat, index: nat)
      reads this
    {
      && Valid() && Lay() == l
      && Good(l, g, order) && l[g] == At(zone, index)
      && Range(g, Pow2(order)) !! FreePages()
      && FreePages() + Range(g, Pow2(order)) == goal
      && Refs() == refs
    }

    lemma MergingPlace(l: Layout, goal: set<nat>, refs: seq<nat>, g: nat, order: nat, zone: nat, index: nat)
      requires Merging(l, goal, refs, g, order, zone, index)
      ensures g < |pages| && !pages[g].reserved && ZonesFit(zones, pages)
      ensures pages[g].zone == zone < |zones| && zones[zone] + index == g && PageToIndex(g) == index
    {
      PlaceFacts(g);
    }

    /** One round of the coalescing loop: the free buddy leaves its list. */
    method TakeBuddy(ghost l: Layout, ghost goal: set<nat>, ghost refs: seq<nat>,
                     ghost g: nat, ghost order: nat, zone: nat, index: nat, buddy: nat)
      requires Merging(l, goal, refs, g, order, zone, index) && order < MAX_ORDER
      requires zone < |zones| && buddy == zones[zone] + Xor(index, Pow2(order))
      requires IsBuddyPage(buddy, order, zone)
      modifies this
      ensures Merging(l, goal, refs, if g < buddy then g else buddy, order + 1, zone, And(index, Xor(index, Pow2(order))))
    {
      MergingPlace(l, goal, refs, g, order, zone, index);
      BuddyTest(g, order);
      hide Canonical, ListsMatch, ZonesFit, LayoutOf, BlocksOf, FreeSet, Range, Pow2, And, Xor, IsBuddy;
      MergeStep(l, Free(), g, order, buddy);
      Unlist(buddy);
    }

    /** The end of do_free: the coalesced block goes on its list. */
    method FinishMerge(ghost l: Layout, ghost goal: set<nat>, ghost refs: seq<nat>, g: nat, order: nat,
                       ghost zone: nat, ghost index: nat)
      requires Merging(l, goal, refs, g, order, zone, index)
      requires zone < |zones|
      requires order < MAX_ORDER ==> !IsBuddyPage(zones[zone] + Xor(index, Pow2(order)), order, zone)
      modifies this
      ensures Valid() && Lay() == l && FreePages() == goal && Refs() == refs
    {
      MergingPlace(l, goal, refs, g, order, zone, index);
      BuddyTest(g, order);
      hide Canonical, ListsMatch, ZonesFit, LayoutOf, BlocksOf, FreeSet, Range, Pow2, Xor, NoneFree, BuddyFree;
      SetNoneFree(l, Free(), g, Pow2(order));
      AddSet(l, Free(), g, order);
      List(g, order);
    }

    /** do_free: release one aligned block, coalescing with free buddies as far as they go. */
    method DoFree(base: nat, order0: nat)
      requires Valid() && Good(Lay(), base, order0)
      requires Range(base, Pow2(order0)) !! FreePages()
      modifies this
      ensures Valid() && Lay() == old(Lay())
      ensures FreePages() == old(FreePages()) + Range(base, Pow2(order0))
      ensures Zeroed(Refs(), old(Refs()), base, Pow2(order0))
    {
      PlaceFacts(base);
      hide Canonical, ListsMatch, ZonesFit, LayoutOf, BlocksOf, FreeSet, Range, Pow2, And, Xor, NoneFree;
      AndMask(PageToIndex(base), order0);
      assert And(PageToIndex(base), Pow2(order0) - 1) == 0;
      SetNoneFree(Lay(), Free(), base, Pow2(order0));
      ResetPages(base, Pow2(order0));
      PlaceFacts(base);

      var order: nat, zone, pageIndex: nat := order0, pages[base].zone, PageToIndex(base);
      ghost var l, goal, refs := Lay(), FreePages() + Range(base, Pow2(order0)), Refs();
      Coalesce(l, goal, refs, base, order, zone, pageIndex);
    }

    /** The coalescing loop of do_free, and its end. */
    method Coalesce(ghost l: Layout, ghost goal: set<nat>, ghost refs: seq<nat>, ghost base: nat,
                    order0: nat, zone: nat, index: nat)
      requires Merging(l, goal, refs, base, order0, zone, index)
      modifies this
      ensures Valid() && Lay() == l && FreePages() == goal && Refs() == refs
    {
      hide Merging, ZonesFit, And, Xor, Pow2, Lay, FreePages, Refs, Valid, IsBuddyPage;
      var order: nat, pageIndex: nat := order0, index;
      ghost var g: nat := base;
      MergingPlace(l, goal, refs, g, order, zone, pageIndex);
      while order < MAX_ORDER
        invariant Merging(l, goal, refs, g, order, zone, pageIndex)
      {
        MergingPlace(l, goal, refs, g, order, zone, pageIndex);
        var buddyIndex := Xor(pageIndex, Pow2(order));
        var buddy := zones[zone] + buddyIndex;
        if !IsBuddyPage(buddy, order, zone) {
          break;
        }
        TakeBuddy(l, goal, refs, g, order, zone, pageIndex, buddy);
        pageIndex := And(pageIndex, buddyIndex);
        g := if g < buddy then g else buddy;
        order := order + 1;
      }
      MergingPlace(l, goal, refs, g, order, zone, pageIndex);
      FinishMerge(l, goal, refs, zones[zone] + pageIndex, order, zone, pageIndex);
    }

    /** do_allocate: take the front block of the first non-empty list from `order` up, and give back
        the upper halves down to `order`. */
    method DoAllocate(order: nat) returns (r: AllocResult)
      requires Valid()
      modifies this
      ensures r.Panic? <==> order > MAX_ORDER
      ensures Valid() && Lay() == old(Lay())
      ensures !r.Pages? ==> unchanged(this)
      ensures r.Null? ==> !HasFreeRun(Lay(), old(Free()), order)
      ensures r.Pages? ==> HasFreeRun(Lay(), old(Free()), order)
      ensures r.Pages? ==> SmallestSufficient(old(Free()), r.base, order) && Good(Lay(), r.base, order)
      ensures r.Pages? ==> FrontOf(old(lists), old(Free()), r.base)
      ensures r.Pages? ==> Range(r.base, Pow2(order)) <= old(FreePages())
      ensures r.Pages? ==> FreePages() == old(FreePages()) - Range(r.base, Pow2(order))
      ensures Refs() == old(Refs())
    {
      if order > MAX_ORDER {
        return Panic;
      }
      FreeRunExists(Lay(), Free(), order);
      for curOrder := order to MAX_ORDER + 1
        invariant unchanged(this)
        invariant forall h | h in Free() :: Free()[h] < order || curOrder <= Free()[h]
      {
        if lists[curOrder] != [] {
          var pg := lists[curOrder][0];
          assert pg in lists[curOrder];
          Split(pg, curOrder, order);
          return Pages(pg);
        }
      }
      forall h | h in Free() ensures Free()[h] < order {
        assert Good(Lay(), h, Free()[h]);
      }
      return Null;
    }

    /** Partway through splitting: the block of order `order` at `pg` belongs to no list, and with
        the listed blocks makes up the pages `all`. */
    ghost predicate Splitting(l: Layout, all: set<nat>, refs: seq<nat>, pg: nat, order: nat)
      reads this
    {
      && Valid() && Lay() == l && Good(l, pg, order)
      && Range(pg, Pow2(order)) !! FreePages()
      && FreePages() + Range(pg, Pow2(order)) == all
      && Refs() == refs
    }

    /** One round of the splitting loop: the upper half goes on its list. */
    method SplitOnce(ghost l: Layout, ghost all: set<nat>, ghost refs: seq<nat>, pg: nat, order: nat)
      requires order < MAX_ORDER && Splitting(l, all, refs, pg, order + 1)
      modifies this
      ensures Splitting(l, all, refs, pg, order)
    {
      hide ListsMatch, ZonesFit, LayoutOf, BlocksOf, FreeSet, Range, Canonical, NoneFree, BuddyFree;
      SplitStep(l, Free(), pg, order);
      hide Pow2, Good;
      List(pg + Pow2(order), order);
    }

    /** The splitting loop of do_allocate. */
    method Split(pg: nat, blockOrder: nat, order: nat)
      requires Valid() && pg in Free() && Free()[pg] == blockOrder && order <= blockOrder
      modifies this
      ensures Valid() && Lay() == old(Lay())
      ensures Good(Lay(), pg, order)
      ensures Range(pg, Pow2(order)) <= old(FreePages())
      ensures FreePages() == old(FreePages()) - Range(pg, Pow2(order))
      ensures Refs() == old(Refs())
    {
      RemoveSet(Lay(), Free(), pg);
      assert Good(Lay(), pg, blockOrder);
      // The source clears PROPERTY on `pg` last; no other write of the loop depends on it.
      Unlist(pg);
      hide ListsMatch, ZonesFit, LayoutOf, BlocksOf, FreeSet, Range, Canonical, Pow2, Good;
      var curOrder: nat := blockOrder;
      while curOrder > order
        invariant order <= curOrder <= blockOrder <= MAX_ORDER
        invariant Splitting(old(Lay()), old(FreePages()), old(Refs()), pg, curOrder)
      {
        hide Splitting;
        curOrder := curOrder - 1;
        SplitOnce(old(Lay()), old(FreePages()), old(Refs()), pg, curOrder);
      }
    }

    /** Partway through releasing `[base0, base0 + n0)`: `n` pages from `base`, at zone index `i`, remain. */
    ghost predicate FreeProgress(b: Blocks, p: seq<Page>, base0: nat, n0: nat, base: nat, n: nat, i: nat)
      reads this
    {
      && Valid() && Lay() == LayoutOf(zones, p)
      && InZone(Lay(), base0, n0)
      && base0 <= base && base + n == base0 + n0
      && (n > 0 ==> InZone(Lay(), base, n) && Lay()[base] == At(Lay()[base0].zone, i))
      && Range(base, n) !! FreePages()
      && FreePages() == FreeSet(Lay(), b) + Range(base0, base - base0)
      && Zeroed(Refs(), RefsOf(p), base0, base - base0)
    }

    lemma StartProgress(base: nat, n: nat, i: nat)
      requires Valid() && n > 0 && InZone(Lay(), base, n) && Lay()[base] == At(Lay()[base].zone, i)
      requires Range(base, n) !! FreePages()
      ensures FreeProgress(Free(), pages, base, n, base, n, i)
    {
      assert Range(base, 0) == {};
    }

    /** Release the next aligned block of the range. */
    method FreeBlock(ghost b: Blocks, ghost p: seq<Page>, ghost base0: nat, ghost n0: nat,
                     base: nat, ghost n: nat, ghost i: nat, order: nat)
      requires FreeProgress(b, p, base0, n0, base, n, i)
      requires order <= MAX_ORDER && Aligned(i, order) && n >= Pow2(order)
      modifies this
      ensures FreeProgress(b, p, base0, n0, base + Pow2(order), n - Pow2(order), i + Pow2(order))
    {
      hide ListsMatch, ZonesFit, LayoutOf, BlocksOf, FreeSet, Range, Canonical;
      LayoutConsistent(zones, pages);
      var m := Pow2(order);
      RunCut(Lay(), base, n, m);
      RunCut(Lay(), base0, base - base0 + m, base - base0);
      DoFree(base, order);
    }

    /** free: cut the range into aligned blocks, small to large and down again, and release each.
        The order assertion fails exactly when the range holds an aligned block of 8192 pages. */
    method FreeRun(base0: nat, n0: nat) returns (panic: bool)
      requires Valid() && n0 > 0 && InZone(Lay(), base0, n0)
      requires Range(base0, n0) !! FreePages()
      modifies this
      ensures Valid() && Lay() == old(Lay())
      ensures panic <==> HoldsOversize(old(PageToIndex(base0)), n0)
      ensures !panic ==> Released(Lay(), old(Free()), Free(), base0, n0)
      ensures !panic ==> Zeroed(Refs(), old(Refs()), base0, n0)
    {
      hide Canonical, ListsMatch, ZonesFit, LayoutOf, BlocksOf, FreeSet, Range;
      if n0 == 1 {
        DoFree(base0, 0);
        return false;
      }
      PlaceFacts(base0);
      StartProgress(base0, n0, PageToIndex(base0));
      var base, n, order;
      ghost var i;
      panic, base, n, order, i := ReleaseUp(old(Free()), old(pages), base0, n0, PageToIndex(base0));
      if !panic {
        ReleaseDown(old(Free()), old(pages), base0, n0, base, n, i, order);
      }
    }

    /** The first loop of free: from the smallest order up, release the block at the current page
        when that order's bit of its index is set. */
    method ReleaseUp(ghost b: Blocks, ghost p: seq<Page>, base0: nat, n0: nat, ghost index: nat)
      returns (panic: bool, base: nat, n: nat, order: nat, ghost i: nat)
      requires FreeProgress(b, p, base0, n0, base0, n0, index)
      modifies this
      ensures FreeProgress(b, p, base0, n0, base, n, i)
      ensures panic <==> HoldsOversize(index, n0)
      ensures !panic ==> order <= MAX_ORDER + 1 && Aligned(i, order) && n < Pow2(order)
    {
      hide FreeProgress, HoldsOversize, And, Bit, ZonesFit;
      var orderSize: nat;
      base, n, order, orderSize, i := base0, n0, 0, 1, index;
      while n >= orderSize
        invariant orderSize == Pow2(order) && order <= MAX_ORDER + 1
        invariant FreeProgress(b, p, base0, n0, base, n, i)
        invariant Aligned(i, order)
        invariant HoldsOversize(i, n) <==> HoldsOversize(index, n0)
        decreases MAX_ORDER + 1 - order
      {
        if order > MAX_ORDER {
          OversizeHere(i, n);
          panic := true;
          return;
        }
        ProgressPlace(b, p, base0, n0, base, n, i);
        AndBit(i, order);
        assert Aligned(i, order + 1) <==> !Bit(i, order) by {
          AlignStep(i, order);
        }
        if And(PageToIndex(base), orderSize) != 0 {
          assert Aligned(i + Pow2(order), order + 1) by {
            AlignStep(i, order);
          }
          OversizeStep(i, n, order);
          FreeBlock(b, p, base0, n0, base, n, i, order);
          base, n, i := base + orderSize, n - orderSize, i + orderSize;
        }
        order, orderSize := order + 1, orderSize * 2;
      }
      Pow2Monotone(order, MAX_ORDER + 1);
      OversizeNone(i, n);
      panic := false;
    }

    lemma ProgressPlace(b: Blocks, p: seq<Page>, base0: nat, n0: nat, base: nat, n: nat, i: nat)
      requires FreeProgress(b, p, base0, n0, base, n, i) && n > 0
      ensures base < |pages| && !pages[base].reserved && ZonesFit(zones, pages)
      ensures PageToIndex(base) == i
    {
      PlaceFacts(base);
    }

    /** The second loop of free: no more than `2^order` pages remain, and the largest block that
        fits goes first. */
    method ReleaseDown(ghost b: Blocks, ghost p: seq<Page>, ghost base0: nat, ghost n0: nat,
                       start: nat, count: nat, ghost index: nat, top: nat)
      requires FreeProgress(b, p, base0, n0, start, count, index)
      requires top <= MAX_ORDER + 1 && Aligned(index, top) && count < Pow2(top)
      modifies this
      ensures FreeProgress(b, p, base0, n0, start + count, 0, index + count)
    {
      hide FreeProgress, Aligned, Pow2;
      var base: nat, n: nat, order: nat, orderSize: nat := start, count, top, Pow2(top);
      ghost var i: nat := index;
      while n != 0
        invariant orderSize == Pow2(order) && order <= MAX_ORDER + 1
        invariant FreeProgress(b, p, base0, n0, base, n, i)
        invariant base + n == start + count && i + n == index + count
        invariant Aligned(i, order) && n < orderSize
        decreases n
      {
        ghost var above := order;
        order, orderSize := LargestFit(n, order, orderSize);
        AlignDown(i, order, above);
        AlignStep(i, order);
        FreeBlock(b, p, base0, n0, base, n, i, order);
        base, n, i := base + orderSize, n - orderSize, i + orderSize;
      }
    }

    /** allocate: take a block of the requested order and give back the pages beyond `n`. */
    method Allocate(n: nat) returns (r: AllocResult)
      requires Valid() && n > 0
      modifies this
      ensures Valid() && Lay() == old(Lay())
      ensures r.Panic? <==> n >= 2048
      ensures r.Null? <==> n < 2048 && !HasFreeRun(Lay(), old(Free()), GetOrder(n))
      ensures !r.Pages? ==> unchanged(this)
      ensures r.Pages? ==> SmallestSufficient(old(Free()), r.base, GetOrder(n))
      ensures r.Pages? ==> FrontOf(old(lists), old(Free()), r.base)
      ensures r.Pages? ==> Allocated(Lay(), old(Free()), Free(), r.base, n)
      ensures r.Pages? ==> Zeroed(Refs(), old(Refs()), r.base + n, Pow2(GetOrder(n)) - n)
    {
      hide ListsMatch, ZonesFit, LayoutOf, BlocksOf, FreeSet, Range, HasFreeRun, Canonical, SmallestSufficient, FrontOf;
      OrderLimit(n);
      var order := GetOrder(n);
      var orderSize := Pow2(order);
      r := DoAllocate(order);
      if r.Pages? && n != orderSize {
        LayoutConsistent(zones, pages);
        RunCut(Lay(), r.base, orderSize, n);
        TailFits(order, n, r.base);
        var panic := FreeRun(r.base + n, orderSize - n);
        assert !panic;
      }
    }

    lemma TailFits(order: nat, n: nat, base: nat)
      requires Valid() && order <= MAX_ORDER && Good(Lay(), base, order) && 0 < n < Pow2(order)
      ensures base + n < |pages| && !pages[base + n].reserved && ZonesFit(zones, pages)
      ensures !HoldsOversize(PageToIndex(base + n), Pow2(order) - n)
    {
      hide Pow2, Aligned;
      assert Within(base + n, base, Pow2(order));
      PlaceFacts(base + n);
      Pow2Monotone(order, MAX_ORDER + 1);
      hide *;
      OversizeNone(PageToIndex(base + n), Pow2(order) - n);
    }

    /** free_count. */
    method FreeCount() returns (ret: int)
      requires Valid()
      ensures ret == |FreePages()|
    {
      ret := 0;
      for order := 0 to MAX_ORDER + 1
        invariant ret == WeightedCount(counts, order)
      {
        ret := ret + counts[order] * Pow2(order);
      }
      CountIsFreePages(Lay(), Free(), lists, counts);
    }
  }

  // ----- histories

  /** What a client does: take `n` pages and get `base`, fail to, or give `n` pages back. */
  datatype Event = Take(base: nat, n: nat) | Fail(n: nat) | Give(base: nat, n: nat)

  /** The free blocks, and the pages clients hold. */
  datatype Snapshot = Snapshot(free: Blocks, held: set<nat>)

  /** One event, as the contracts of Allocate and FreeRun describe it, with canonical form after it as they
      ensure; clients give back only pages they hold, of one zone, and no range that stops the kernel. */
  ghost predicate Step(l: Layout, s: Snapshot, e: Event, t: Snapshot) {
    match e
    case Take(base, n) => n > 0 && Allocated(l, s.free, t.free, base, n) && t.held == s.held + Range(base, n)
    case Fail(_) => t == s
    case Give(base, n) =>
      && n > 0 && InZone(l, base, n) && Range(base, n) <= s.held
      && Released(l, s.free, t.free, base, n) && t.held == s.held - Range(base, n)
  }

  ghost predicate History(l: Layout, run: seq<Snapshot>, events: seq<Event>) {
    && |run| == |events| + 1
    && forall i | 0 <= i < |events| :: Step(l, run[i], events[i], run[i + 1])
  }

  ghost predicate Separate(l: Layout, s: Snapshot) {
    Canonical(l, s.free) && s.held !! FreeSet(l, s.free)
  }

  /** Over every history no page is both free and held, none is lost, and the free count drops by
      exactly the pages held. */
  lemma {:induction false} HistoryConserves(l: Layout, run: seq<Snapshot>, events: seq<Event>)
    requires History(l, run, events) && Separate(l, run[0])
    ensures Separate(l, run[|events|])
    ensures FreeSet(l, run[|events|].free) + run[|events|].held == FreeSet(l, run[0].free) + run[0].held
    ensures |FreeSet(l, run[|events|].free)| + |run[|events|].held| == |FreeSet(l, run[0].free)| + |run[0].held|
    decreases |events|
  {
    hide Canonical, FreeSet, Range;
    if events != [] {
      var k := |events| - 1;
      assert Step(l, run[k], events[k], run[k + 1]);
      HistoryConserves(l, run[..k + 1], events[..k]);
    }
    var a, b := run[0], run[|events|];
    assert |FreeSet(l, a.free) + a.held| == |FreeSet(l, a.free)| + |a.held|;
    assert |FreeSet(l, b.free) + b.held| == |FreeSet(l, b.free)| + |b.held|;
  }

  /** The free blocks forget the past: two histories from one start that leave the same pages held
      leave exactly the same free blocks. */
  lemma HistoryForgotten(l: Layout, run: seq<Snapshot>, events: seq<Event>, run': seq<Snapshot>, events': seq<Event>)
    requires History(l, run, events) && History(l, run', events')
    requires run[0] == run'[0] && Separate(l, run[0])
    requires run[|events|].held == run'[|events'|].held
    ensures run[|events|].free == run'[|events'|].free
  {
    HistoryConserves(l, run, events);
    HistoryConserves(l, run', events');
    var b, c := run[|events|].free, run'[|events'|].free;
    assert FreeSet(l, b) == FreeSet(l, c) by {
      hide FreeSet;
      var held := run[|events|].held;
      assert FreeSet(l, b) == FreeSet(l, b) + held - held;
      assert FreeSet(l, c) == FreeSet(l, c) + held - held;
    }
    forall k: nat ensures Free(b, k) <==> Free(c, k) {
      FreeInLayout(l, b, k);
      FreeInLayout(l, c, k);
    }
    BlocksDetermined(l, b, c);
  }
}
