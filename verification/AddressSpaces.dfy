/** Address spaces made by copying the kernel's root table, over any history of copies and mappings, and the
    paging code as it writes entries in place. */
module AddressSpaces {
  import opened PageTables
  import opened Prelude

  ghost predicate UserHalfEmpty(m: Memory, r: nat) {
    r in m.tables && forall i: nat | i < USER_SLOTS :: !Present(At(m.tables[r], i))
  }

  /** duplicate_kernel_pml4t into a fresh frame. */
  function Duplicate(m: Memory, k: nat): Memory
    requires k in m.tables && m.pool != []
  {
    Memory(m.tables[m.pool[0] := m.tables[k]], m.roles[m.pool[0] := Root], m.pool[1..])
  }

  /** A copied root keeps the tables in order exactly if the user half of the copied one is empty. */
  lemma DuplicateExact(m: Memory, k: nat)
    requires Inv(m) && IsRoot(m, k) && m.pool != []
    ensures Inv(Duplicate(m, k)) <==> UserHalfEmpty(m, k)
  {
    var f, m' := m.pool[0], Duplicate(m, k);
    if UserHalfEmpty(m, k) {
      forall t, i: nat | t in m'.tables ensures LinkOk(m', t, i) {
        assert LinkOk(m, if t == f then k else t, i);
      }
    } else {
      var i: nat :| i < USER_SLOTS && Present(At(m.tables[k], i));
      assert LinkOk(m, k, i);
      assert !LinkOk(m', f, i);
    }
  }

  /** A root with one table in its user half: after copying it, both roots lead to that table. */
  lemma DuplicateSharesUser()
    ensures var m := Memory(map[0 := map[0 := Entry(1, PG_P)], 1 := map[]], map[0 := Root, 1 := Second(0, 0)], [2]);
      && Inv(m) && !Inv(Duplicate(m, 0))
      && At(Duplicate(m, 0).tables[2], 0) == At(Duplicate(m, 0).tables[0], 0) == Entry(1, PG_P)
  {
    var m := Memory(map[0 := map[0 := Entry(1, PG_P)], 1 := map[]], map[0 := Root, 1 := Second(0, 0)], [2]);
    assert m.roles.Keys == m.tables.Keys;
    assert Present(Entry(1, PG_P)) && !Present(Entry(0, 0));
    forall t, i: nat | t in m.tables ensures LinkOk(m, t, i) {
    }
    assert Present(At(m.tables[0], 0)) && !UserHalfEmpty(m, 0);
    DuplicateExact(m, 0);
  }

  // ----- what a copy of a root with user tables means

  /** The translation of an address by the entries alone, whatever shape the tables have. */
  function Translate(m: Memory, r: nat, va: nat): Option<Entry> {
    if r !in m.tables then None
    else
      var e := At(m.tables[r], P4X(va));
      if !Present(e) || e.base !in m.tables then None
      else
        var f := At(m.tables[e.base], P3X(va));
        if !Present(f) || f.base !in m.tables then None
        else
          var g := At(m.tables[f.base], P2X(va));
          if Present(g) then Some(g) else None
  }

  lemma TranslateIsLookup(m: Memory, r: nat, va: nat)
    requires Inv(m) && IsRoot(m, r)
    ensures Translate(m, r, va) == Lookup(m, r, va)
  {
    assert LinkOk(m, r, P4X(va));
    if FindDir(m, r, va).Some? {
      DirRole(m, r, va);
    }
  }

  /** map_page by the entries alone; the tables its walk reaches are there. */
  function MapEntries(m: Memory, r: nat, va: nat, pa: nat, perm: bv8): (Memory, Code)
    requires r in m.tables
  {
    var (m1, p) := Descend(m, r, P4X(va), perm, Second(P4X(va), r));
    if !p.Dir? || p.value !in m1.tables then (m1, Panic)
    else
      var (m2, d) := Descend(m1, p.value, P3X(va), perm, Third(p.value, P3X(va)));
      if !d.Dir? || d.value !in m2.tables then (m2, Panic)
      else if Present(At(m2.tables[d.value], P2X(va))) then (m2, Rewrite)
      else (SetLeaf(m2, d.value, P2X(va), Leaf(pa, perm)), Success)
  }

  lemma MapEntriesIsMapPage(m: Memory, r: nat, va: nat, pa: nat, perm: bv8)
    requires Inv(m) && IsRoot(m, r)
    ensures MapEntries(m, r, va, pa, perm) == MapPage(m, r, va, pa, perm)
  {
    var i, j := P4X(va), P3X(va);
    DescendKeeps(m, r, i, perm, Second(i, r));
    WalkKeeps(m, r, va, perm);
    var (m1, p) := Descend(m, r, i, perm, Second(i, r));
    if p.Dir? {
      assert LinkOk(m1, r, i);
      var (m2, d) := Descend(m1, p.value, j, perm, Third(p.value, j));
      if d.Dir? {
        DirRole(m2, r, va);
      }
    }
  }

  /** What a caller sees of a copied root: a page mapped afterwards under the copy is translated under the
      original too exactly if the original had a table for that part of the address space. */
  lemma DuplicateLeaksExact(m: Memory, k: nat, va: nat, pa: nat, perm: bv8)
    requires Inv(m) && IsRoot(m, k) && m.pool != [] && MapEntries(Duplicate(m, k), m.pool[0], va, pa, perm).1 == Success
    ensures var m' := MapEntries(Duplicate(m, k), m.pool[0], va, pa, perm).0;
      && Translate(m, k, va).None? && Translate(m', m.pool[0], va) == Some(Entry(pa, PG_PS | PG_P | PG_U | perm))
      && Translate(m', k, va) == if Present(At(m.tables[k], P4X(va))) then Some(Entry(pa, PG_PS | PG_P | PG_U | perm)) else None
  {
    assert m.pool[0] !in m.tables && LinkOk(m, k, P4X(va));
    var e := At(m.tables[k], P4X(va));
    if Present(e) {
      assert LinkOk(m, e.base, P3X(va)) && m.roles[e.base].Second?;
      SharedTable(Duplicate(m, k), m.pool[0], k, e.base, va, pa, perm);
      hide Inv, MapEntries, P4X, P3X, P2X;
    } else {
      hide Inv, P4X, P3X, P2X;
      FlagsPresent(perm);
    }
  }

  /** Two roots that lead to table `t`: a page mapped through it under one is translated under both. */
  lemma SharedTable(m: Memory, f: nat, k: nat, t: nat, va: nat, pa: nat, perm: bv8)
    requires f in m.tables && k in m.tables && t in m.tables && t != f && t != k && f !in m.pool && k !in m.pool && t !in m.pool
    requires var e := At(m.tables[f], P4X(va)); Present(e) && e.base == t && At(m.tables[k], P4X(va)) == e
    requires var g := At(m.tables[t], P3X(va)); Present(g) ==> g.base in m.tables && g.base != f && g.base != k && g.base != t
    requires MapEntries(m, f, va, pa, perm).1 == Success
    ensures var m' := MapEntries(m, f, va, pa, perm).0;
      Translate(m', f, va) == Translate(m', k, va) == Some(Entry(pa, PG_PS | PG_P | PG_U | perm)) && Translate(m, k, va).None?
  {
    hide P4X, P3X, P2X;
    FlagsPresent(perm);
    if m.pool != [] {
      assert m.pool[0] in m.pool;
    }
    var (m2, d) := Descend(m, t, P3X(va), perm, Third(t, P3X(va)));
    assert MapEntries(m, f, va, pa, perm).0 == SetLeaf(m2, d.value, P2X(va), Leaf(pa, perm));
  }

  /** The copy translates as the kernel does, and the other roots as before. */
  lemma DuplicateLookup(m: Memory, k: nat, r: nat, va: nat)
    requires Inv(m) && IsRoot(m, k) && m.pool != [] && UserHalfEmpty(m, k) && IsRoot(m, r)
    ensures var f, m' := m.pool[0], Duplicate(m, k);
      && Inv(m') && IsRoot(m', f) && IsRoot(m', r)
      && Lookup(m', f, va) == Lookup(m, k, va) && Lookup(m', r, va) == Lookup(m, r, va)
  {
    DuplicateExact(m, k);
    SameBelow(m, k, r, va);
    SameBelow(m, k, k, va);
  }

  lemma SameBelow(m: Memory, k: nat, r: nat, va: nat)
    requires Inv(m) && IsRoot(m, k) && m.pool != [] && IsRoot(m, r) && Inv(Duplicate(m, k))
    ensures Lookup(Duplicate(m, k), r, va) == Lookup(m, r, va)
    ensures r == k ==> Lookup(Duplicate(m, k), m.pool[0], va) == Lookup(m, k, va)
  {
    assert LinkOk(m, r, P4X(va));
    if FindDir(m, r, va).Some? {
      DirRole(m, r, va);
    }
  }

  // ----- root tables

  lemma DescendKeepsEntry(m: Memory, t: nat, i: nat, perm: bv8, role: Role, t': nat, i': nat)
    requires Inv(m) && t in m.tables && t' in m.tables && !(t' == t && i' == i)
    ensures var m' := Descend(m, t, i, perm, role).0;
      t' in m'.tables && At(m'.tables[t'], i') == At(m.tables[t'], i')
  {
  }

  /** Mapping a page writes at most one entry of a root table: its own, at the page's top index. */
  lemma RootsKept(m: Memory, r: nat, va: nat, pa: nat, perm: bv8, r': nat, i: nat)
    requires Inv(m) && IsRoot(m, r) && IsRoot(m, r') && !(r' == r && i == P4X(va))
    ensures var m' := MapPage(m, r, va, pa, perm).0;
      r' in m'.tables && At(m'.tables[r'], i) == At(m.tables[r'], i)
  {
    WalkKeeps(m, r, va, perm);
    WalkRootsKept(m, r, va, perm, r', i);
    var (m1, d) := Walk(m, r, va, perm);
    if d.Dir? {
      DirRole(m1, r, va);
    }
    hide Walk, Inv, FindDir, At, P4X, P3X, P2X;
  }

  lemma WalkRootsKept(m: Memory, r: nat, va: nat, perm: bv8, r': nat, i: nat)
    requires Inv(m) && IsRoot(m, r) && IsRoot(m, r') && !(r' == r && i == P4X(va))
    ensures var m' := Walk(m, r, va, perm).0;
      r' in m'.tables && At(m'.tables[r'], i) == At(m.tables[r'], i)
  {
    var i4, j := P4X(va), P3X(va);
    DescendKeeps(m, r, i4, perm, Second(i4, r));
    DescendKeepsEntry(m, r, i4, perm, Second(i4, r), r', i);
    var (m1, p) := Descend(m, r, i4, perm, Second(i4, r));
    if p.Dir? {
      assert LinkOk(m1, r, i4);
      assert r' in m1.roles && r' != p.value;
      DescendKeepsEntry(m1, p.value, j, perm, Third(p.value, j), r', i);
    }
    hide Descend, Inv, At, P4X, P3X;
  }

  lemma {:induction false} RangeRootsKept(m: Memory, r: nat, va: nat, pa: nat, end: nat, perm: bv8, r': nat, i: nat)
    requires Inv(m) && IsRoot(m, r) && IsRoot(m, r')
    requires r' == r ==> forall k: nat | k < Pages(pa, end) :: P4X(PageAt(va, k)) != i
    ensures var m' := MapPages(m, r, va, pa, end, perm).0;
      Inv(m') && IsRoot(m', r') && At(m'.tables[r'], i) == At(m.tables[r'], i)
    decreases end - pa
  {
    if pa < end && pa + PAGE_SIZE <= end {
      PagesStep(pa, end);
      PageAtStep(va, 1);
      MapPageCode(m, r, va, pa, perm);
      RootsKept(m, r, va, pa, perm, r', i);
      var (m1, code) := MapPage(m, r, va, pa, perm);
      if code == Success {
        var v := va + PAGE_SIZE;
        forall k: nat | r' == r && k < Pages(pa + PAGE_SIZE, end) ensures P4X(PageAt(v, k)) != i {
          PageAtStep(va, k + 1);
        }
        hide MapPage, P4X, PageAt, Pages, Inv;
        RangeRootsKept(m1, r, va + PAGE_SIZE, pa + PAGE_SIZE, end, perm, r', i);
      }
    }
  }

  // ----- tables that roots share

  /** Once a root has the table for an address, mapping a page under it decides for no other root whether it
      reaches that table. */
  lemma SharedKept(m: Memory, r: nat, va: nat, pa: nat, perm: bv8, r': nat, va': nat)
    requires Inv(m) && IsRoot(m, r) && IsRoot(m, r') && FindDir(m, r, va').Some?
    ensures var m' := MapPage(m, r, va, pa, perm).0;
      && Inv(m') && IsRoot(m', r) && IsRoot(m', r')
      && FindDir(m', r, va') == FindDir(m, r, va') && (Shared(m', r, r', va') <==> Shared(m, r, r', va'))
  {
    var m' := MapPage(m, r, va, pa, perm).0;
    MapPageLookup(m, r, va, pa, perm, r', va');
    MapPageCode(m, r, va, pa, perm);
    MapPageDir(m, r, va, pa, perm, r, va');
    MapPageDir(m, r, va, pa, perm, r', va');
    if r' != r && Shared(m', r, r', va') {
      DirRole(m, r, va');
      DirRole(m', r', va');
      RootsKept(m, r, va, pa, perm, r', P4X(va'));
    }
  }

  /** A table that is there stays where it is. */
  lemma MapPageDir(m: Memory, r: nat, va: nat, pa: nat, perm: bv8, r': nat, va': nat)
    requires Inv(m) && IsRoot(m, r) && IsRoot(m, r')
    ensures var m' := MapPage(m, r, va, pa, perm).0;
      Inv(m') && IsRoot(m', r') && (FindDir(m, r', va').Some? ==> FindDir(m', r', va') == FindDir(m, r', va'))
  {
    MapPageCode(m, r, va, pa, perm);
    WalkKeeps(m, r, va, perm);
    WalkLookup(m, r, va, perm, r', va');
    var (m1, d) := Walk(m, r, va, perm);
    if d.Dir? {
      DirRole(m1, r, va);
      SetLeafLookup(m1, d.value, P2X(va), Leaf(pa, perm), r', va');
    }
    hide Walk, FindDir, Inv, SetLeaf;
  }

  lemma {:induction false} SharedRangeKept(m: Memory, r: nat, va: nat, pa: nat, end: nat, perm: bv8, r': nat, va': nat)
    requires Inv(m) && IsRoot(m, r) && IsRoot(m, r') && FindDir(m, r, va').Some?
    ensures var m' := MapPages(m, r, va, pa, end, perm).0;
      && Inv(m') && IsRoot(m', r) && IsRoot(m', r') && (Shared(m', r, r', va') <==> Shared(m, r, r', va'))
    decreases end - pa
  {
    hide MapPage, Inv, FindDir, IsRoot, Shared, MapPages;
    SharedKept(m, r, va, pa, perm, r', va');
    if pa < end && pa + PAGE_SIZE <= end && MapPage(m, r, va, pa, perm).1 == Success {
      MapPagesUnfold(m, r, va, pa, end, perm);
      SharedRangeKept(MapPage(m, r, va, pa, perm).0, r, va + PAGE_SIZE, pa + PAGE_SIZE, end, perm, r', va');
    } else {
      MapPagesStop(m, r, va, pa, end, perm);
    }
  }

  lemma {:induction false} RangeShared(m: Memory, r: nat, va: nat, pa: nat, end: nat, perm: bv8, r': nat, va': nat)
    requires Inv(m) && IsRoot(m, r) && IsRoot(m, r') && end <= pa + 0x1_0000_0000_0000
    ensures var m' := MapPages(m, r, va, pa, end, perm).0;
      && Inv(m') && IsRoot(m', r) && IsRoot(m', r')
      && var k := Offset(va, va');
      && Lookup(m', r', va') ==
         if k < Done(m, r, va, pa, end, perm) && Shared(m', r, r', va') then
           Some(Entry(PageAt(pa, k), PG_PS | PG_P | PG_U | perm))
         else Lookup(m, r', va')
    decreases end - pa
  {
    hide *;
    MapPageLookup(m, r, va, pa, perm, r', va');
    if pa < end && pa + PAGE_SIZE <= end && MapPage(m, r, va, pa, perm).1 == Success {
      var m1 := MapPage(m, r, va, pa, perm).0;
      OffsetStep(va, va');
      PagesStep(pa, end);
      var k := Offset(va, va');
      PageAtStep(pa, if k == 0 then 1 else k);
      MapPagesUnfold(m, r, va, pa, end, perm);
      if SamePage(va, va') {
        SharedWithSelf(m, r, va, pa, perm);
        SharedSame(m1, r, r', va, va');
        SharedRangeKept(m1, r, va + PAGE_SIZE, pa + PAGE_SIZE, end, perm, r', va');
      }
      RangeShared(m1, r, va + PAGE_SIZE, pa + PAGE_SIZE, end, perm, r', va');
    } else {
      MapPagesStop(m, r, va, pa, end, perm);
    }
  }

  /** What mapping a range does under every root: those that share the table of a page done gain that page, and
      nothing else changes. */
  lemma MapPagesShared(m: Memory, r: nat, va: nat, pa: nat, end: nat, perm: bv8, r': nat, va': nat)
    requires Inv(m) && IsRoot(m, r) && IsRoot(m, r') && end <= pa + 0x1_0000_0000_0000
    ensures var m' := MapPages(m, r, va, pa, end, perm).0;
      && Inv(m') && IsRoot(m', r) && IsRoot(m', r')
      && var k := Offset(va, va');
      && Lookup(m', r', va') ==
         if k < Done(m, r, va, pa, end, perm) && Shared(m', r, r', va') then
           Some(Entry(pa + k * PAGE_SIZE, PG_PS | PG_P | PG_U | perm))
         else Lookup(m, r', va')
  {
    hide *;
    RangeShared(m, r, va, pa, end, perm, r', va');
    PageAtIs(pa, Offset(va, va'));
  }

  lemma SharedSame(m: Memory, r: nat, r': nat, va: nat, va': nat)
    requires Inv(m) && IsRoot(m, r) && IsRoot(m, r') && SamePage(va, va')
    ensures Shared(m, r, r', va) <==> Shared(m, r, r', va')
    ensures Shared(m, r, r, va) ==> FindDir(m, r, va').Some?
  {
  }

  // ----- histories

  datatype Op = Copy | Map(root: nat, va: nat, pa: nat, end: nat, perm: bv8)

  ghost predicate KernelRange(va: nat, pa: nat, end: nat) {
    forall k: nat | k < Pages(pa, end) :: P4X(PageAt(va, k)) >= USER_SLOTS
  }

  /** Callers map under roots they have, and under the kernel's root only in the kernel half. */
  ghost predicate Allowed(m: Memory, kernel: nat, op: Op) {
    match op
    case Copy => m.pool != [] && kernel in m.tables
    case Map(r, va, pa, end, _) => IsRoot(m, r) && (r == kernel ==> KernelRange(va, pa, end))
  }

  function Apply(m: Memory, kernel: nat, op: Op): Memory
    requires Inv(m) && (op.Copy? ==> m.pool != [] && kernel in m.tables) && (op.Map? ==> IsRoot(m, op.root))
  {
    match op
    case Copy => Duplicate(m, kernel)
    case Map(r, va, pa, end, perm) => MapPages(m, r, va, pa, end, perm).0
  }

  ghost predicate Good(m: Memory, kernel: nat) {
    Inv(m) && IsRoot(m, kernel) && UserHalfEmpty(m, kernel)
  }

  lemma StepGood(m: Memory, kernel: nat, op: Op)
    requires Good(m, kernel) && Allowed(m, kernel, op)
    ensures Good(Apply(m, kernel, op), kernel)
  {
    match op
    case Copy => DuplicateExact(m, kernel);
    case Map(r, va, pa, end, perm) =>
      var m' := MapPages(m, r, va, pa, end, perm).0;
      MapPagesKeeps(m, r, va, pa, end, perm, kernel);
      forall i: nat | i < USER_SLOTS ensures !Present(At(m'.tables[kernel], i)) {
        RangeRootsKept(m, r, va, pa, end, perm, kernel, i);
      }
  }

  /** A copy is a new root that translates as the kernel's. */
  lemma CopyDoes(m: Memory, kernel: nat, va: nat)
    requires Good(m, kernel) && Allowed(m, kernel, Copy)
    ensures var m', f := Apply(m, kernel, Copy), m.pool[0];
      Inv(m') && f !in m.tables && IsRoot(m', f) && Lookup(m', f, va) == Lookup(m, kernel, va)
  {
    DuplicateLookup(m, kernel, kernel, va);
    hide Lookup, Duplicate, LinkOk;
  }

  /** Mapping sends page `k` of the range to physical page `k`, as far as it gets, and leaves the rest of that root
      alone. */
  lemma MapDoes(m: Memory, kernel: nat, r: nat, va: nat, pa: nat, end: nat, perm: bv8, va': nat)
    requires Inv(m) && IsRoot(m, r) && end <= pa + 0x1_0000_0000_0000
    ensures var m', k := Apply(m, kernel, Map(r, va, pa, end, perm)), Offset(va, va');
      && Inv(m') && IsRoot(m', r)
      && Lookup(m', r, va') ==
         if k < Done(m, r, va, pa, end, perm) then Some(Entry(pa + k * PAGE_SIZE, PG_PS | PG_P | PG_U | perm))
         else Lookup(m, r, va')
  {
    assert Apply(m, kernel, Map(r, va, pa, end, perm)) == MapPages(m, r, va, pa, end, perm).0;
    hide *;
    MapPagesLookup(m, r, va, pa, end, perm, va');
  }

  /** A step that does not map under `r` changes no user-half translation under `r`. */
  lemma StepApart(m: Memory, kernel: nat, op: Op, r: nat, va: nat)
    requires Good(m, kernel) && Allowed(m, kernel, op) && IsRoot(m, r) && P4X(va) < USER_SLOTS
    requires op.Map? ==> op.root != r
    ensures var m' := Apply(m, kernel, op);
      Inv(m') && IsRoot(m', r) && Lookup(m', r, va) == Lookup(m, r, va)
  {
    match op
    case Copy => DuplicateLookup(m, kernel, r, va);
    case Map(root, start, pa, end, perm) => MapPagesApart(m, root, start, pa, end, perm, r, va);
  }

  /** A step; after a stop of the kernel more may follow here than in the source. */
  ghost predicate IsStep(m: Memory, kernel: nat, op: Op, m': Memory) {
    Allowed(m, kernel, op) && (Inv(m) ==> m' == Apply(m, kernel, op))
  }

  ghost predicate IsHistory(states: seq<Memory>, kernel: nat, ops: seq<Op>) {
    && |states| == |ops| + 1
    && forall i | 0 <= i < |ops| :: IsStep(states[i], kernel, ops[i], states[i + 1])
  }

  /** One empty root and frames in the pool are a good start. */
  lemma FirstRootGood(kernel: nat, pool: seq<nat>)
    requires (forall i, j | 0 <= i < j < |pool| :: pool[i] != pool[j]) && kernel !in pool
    ensures Good(Memory(map[kernel := map[]], map[kernel := Root], pool), kernel)
  {
    var m := Memory(map[kernel := map[]], map[kernel := Root], pool);
    assert forall i | 0 <= i < |pool| :: pool[i] in pool;
    assert m.roles.Keys == m.tables.Keys;
  }

  /** Isolation: whatever the other address spaces copy and map, the user half of an address space translates
      as it did. */
  lemma {:induction false} Isolation(states: seq<Memory>, kernel: nat, ops: seq<Op>, r: nat, va: nat, n: nat)
    requires IsHistory(states, kernel, ops) && Good(states[0], kernel) && n < |states|
    requires IsRoot(states[0], r) && P4X(va) < USER_SLOTS
    requires forall i | 0 <= i < |ops| :: ops[i].Map? ==> ops[i].root != r
    ensures Good(states[n], kernel) && IsRoot(states[n], r) && Lookup(states[n], r, va) == Lookup(states[0], r, va)
  {
    if n > 0 {
      Isolation(states, kernel, ops, r, va, n - 1);
      var m, op := states[n - 1], ops[n - 1];
      assert IsStep(m, kernel, op, states[n]);
      StepGood(m, kernel, op);
      StepApart(m, kernel, op, r, va);
    }
  }

  // ----- the code

  class Paging {
    var tables: map<nat, Table>
    var roles: map<nat, Role>
    var pool: seq<nat>

    function M(): Memory
      reads this
    {
      Memory(tables, roles, pool)
    }

    /** pgdir_entry_alloc and the memset after it. */
    method NewTable(role: Role) returns (f: Option<nat>)
      modifies this
      ensures f.None? <==> old(pool) == []
      ensures f.None? ==> M() == old(M())
      ensures f.Some? ==>
        && f.value == old(pool)[0]
        && M() == Memory(old(tables)[f.value := map[]], old(roles)[f.value := role], old(pool)[1..])
    {
      if pool == [] {
        return None;
      }
      f := Some(pool[0]);
      tables := tables[pool[0] := map[]];
      roles := roles[pool[0] := role];
      pool := pool[1..];
    }

    method Level(t: nat, i: nat, create: bool, perm: bv8, role: Role) returns (next: Found)
      requires Inv(M()) && t in tables && RoleFits(M(), t, i, role)
      modifies this
      ensures create ==> (M(), next) == Descend(old(M()), t, i, perm, role)
      ensures !create ==>
        && M() == old(M())
        && next == if Present(At(old(tables)[t], i)) then Dir(At(old(tables)[t], i).base) else Absent
    {
      var e := At(tables[t], i);
      if Present(e) {
        return Dir(e.base);
      }
      if !create {
        return Absent;
      }
      var f := NewTable(role);
      if f.None? {
        return Stopped;
      }
      var table: Table := tables[t][i := Entry(f.value, PG_P | PG_U | perm)];
      tables := tables[t := table];
      next := Dir(f.value);
    }

    method WalkPgdir(r: nat, va: nat, create: bool, perm: bv8) returns (dir: Found)
      requires Inv(M()) && IsRoot(M(), r)
      modifies this
      ensures create ==> (M(), dir) == Walk(old(M()), r, va, perm)
      ensures !create ==>
        && M() == old(M())
        && dir == match FindDir(M(), r, va) case None => Absent case Some(d) => Dir(d)
    {
      ghost var m := M();
      var i, j := P4X(va), P3X(va);
      DescendKeeps(m, r, i, perm, Second(i, r));
      assert LinkOk(m, r, i);
      dir := Level(r, i, create, perm, Second(i, r));
      if !dir.Dir? {
        return;
      }
      assert Inv(M()) && LinkOk(M(), r, i);
      dir := Level(dir.value, j, create, perm, Third(dir.value, j));
    }

    method MapOne(r: nat, va: nat, pa: nat, perm: bv8) returns (code: Code)
      requires Inv(M()) && IsRoot(M(), r)
      modifies this
      ensures (M(), code) == MapPage(old(M()), r, va, pa, perm)
    {
      WalkKeeps(M(), r, va, perm);
      var dir := WalkPgdir(r, va, true, perm);
      if dir.Stopped? {
        return Panic;
      }
      DirRole(M(), r, va);
      if Present(At(tables[dir.value], P2X(va))) {
        return Rewrite;
      }
      var table: Table := tables[dir.value][P2X(va) := Leaf(pa, perm)];
      tables := tables[dir.value := table];
      code := Success;
    }

    method MapMany(r: nat, va: nat, pa: nat, end: nat, perm: bv8) returns (code: Code)
      requires Inv(M()) && IsRoot(M(), r)
      modifies this
      ensures (M(), code) == MapPages(old(M()), r, va, pa, end, perm)
    {
      hide MapPages, MapPage, Inv, IsRoot;
      var p: nat, v: nat := pa, va;
      while p < end && p + PAGE_SIZE <= end
        invariant Inv(M()) && IsRoot(M(), r)
        invariant MapPages(M(), r, v, p, end, perm) == MapPages(old(M()), r, va, pa, end, perm)
        decreases end - p
      {
        if MapPage(M(), r, v, p, perm).1 == Success {
          MapPagesUnfold(M(), r, v, p, end, perm);
        } else {
          MapPagesStop(M(), r, v, p, end, perm);
        }
        code := MapOne(r, v, p, perm);
        if code != Success {
          return;
        }
        p, v := p + PAGE_SIZE, v + PAGE_SIZE;
      }
      MapPagesStop(M(), r, v, p, end, perm);
      code := Success;
    }
  }

  /** The physical end that map_range computes: the start is rounded down before the length is added. */
  function RangeEnd(pa: nat, len: nat): nat {
    (pa / PAGE_SIZE * PAGE_SIZE + len + PAGE_SIZE - 1) / PAGE_SIZE * PAGE_SIZE
  }

  /** So map_range reaches the end of the range it was given exactly if the offset of the start fits in what
      rounding the length up adds. */
  lemma RangeCovered(pa: nat, len: nat)
    ensures pa + len <= RangeEnd(pa, len) <==> pa % PAGE_SIZE <= (len + PAGE_SIZE - 1) / PAGE_SIZE * PAGE_SIZE - len
  {
    var q := pa / PAGE_SIZE;
    assert q * PAGE_SIZE + len + PAGE_SIZE - 1 == q * PAGE_SIZE + (len + PAGE_SIZE - 1);
    assert (q * PAGE_SIZE + (len + PAGE_SIZE - 1)) / PAGE_SIZE == q + (len + PAGE_SIZE - 1) / PAGE_SIZE;
  }
}
