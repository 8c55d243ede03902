/** Page reference counts: the count of a page is the number of present leaf entries that name it, over all
    page tables. */
module PageRefs {
  import opened PageTables
  import opened Prelude

  /** `ref` holds the counts, by physical address of the page. */
  datatype Pages = Pages(mem: Memory, ref: map<nat, nat>)

  const ZERO: Entry := Entry(0, 0)

  predicate IsLeafTable(m: Memory, d: nat) {
    d in m.tables && d in m.roles && m.roles[d].Third?
  }

  predicate Names(m: Memory, d: nat, i: nat, p: nat) {
    IsLeafTable(m, d) && Present(At(m.tables[d], i)) && At(m.tables[d], i).base == p
  }

  /** The leaf entries that name a page. */
  ghost function Naming(m: Memory, p: nat): set<(nat, nat)> {
    set d, i | d in m.tables && i in m.tables[d] && Names(m, d, i, p) :: (d, i)
  }

  lemma NamingIff(m: Memory, p: nat, d: nat, i: nat)
    ensures (d, i) in Naming(m, p) <==> Names(m, d, i, p)
  {
  }

  /** Every count is right, and every page named has one. */
  ghost predicate RefsRight(s: Pages) {
    && Inv(s.mem)
    && (forall p | p in s.ref :: s.ref[p] == |Naming(s.mem, p)|)
    && (forall d: nat, i: nat | IsLeafTable(s.mem, d) && Present(At(s.mem.tables[d], i)) ::
          At(s.mem.tables[d], i).base in s.ref)
  }

  // ----- writing a leaf entry

  lemma SetLeafKeeps(m: Memory, d: nat, i: nat, e: Entry)
    requires Inv(m) && IsLeafTable(m, d)
    ensures Inv(SetLeaf(m, d, i, e))
    ensures forall c: nat :: IsLeafTable(SetLeaf(m, d, i, e), c) <==> IsLeafTable(m, c)
    ensures forall c: nat, j: nat | IsLeafTable(m, c) ::
      At(SetLeaf(m, d, i, e).tables[c], j) == if c == d && j == i then e else At(m.tables[c], j)
  {
    var m' := SetLeaf(m, d, i, e);
    forall u, j: nat | u in m'.tables ensures LinkOk(m', u, j) {
      assert LinkOk(m, u, j);
    }
  }

  /** How the entries naming a page change when one entry is written. */
  lemma SetLeafNaming(m: Memory, d: nat, i: nat, e: Entry, p: nat)
    requires Inv(m) && IsLeafTable(m, d)
    ensures var m' := SetLeaf(m, d, i, e);
      Naming(m', p) == if Present(e) && e.base == p then Naming(m, p) + {(d, i)} else Naming(m, p) - {(d, i)}
  {
    var m' := SetLeaf(m, d, i, e);
    SetLeafKeeps(m, d, i, e);
    forall c: nat, j: nat
      ensures (c, j) in Naming(m', p) <==>
        if c == d && j == i then Present(e) && e.base == p else (c, j) in Naming(m, p)
    {
      NamingIff(m, p, c, j);
      NamingIff(m', p, c, j);
    }
  }

  /** Walking to a table adds empty tables only. */
  lemma WalkNaming(m: Memory, r: nat, va: nat, perm: bv8, p: nat)
    requires Inv(m) && IsRoot(m, r)
    ensures Inv(Walk(m, r, va, perm).0)
    ensures Naming(Walk(m, r, va, perm).0, p) == Naming(m, p)
  {
    var i, j := P4X(va), P3X(va);
    DescendKeeps(m, r, i, perm, Second(i, r));
    var (m1, q) := Descend(m, r, i, perm, Second(i, r));
    DescendNaming(m, r, i, perm, Second(i, r), p);
    if q.Dir? {
      assert LinkOk(m1, r, i);
      DescendKeeps(m1, q.value, j, perm, Third(q.value, j));
      DescendNaming(m1, q.value, j, perm, Third(q.value, j), p);
    }
  }

  lemma DescendNaming(m: Memory, t: nat, i: nat, perm: bv8, role: Role, p: nat)
    requires Inv(m) && t in m.tables && RoleFits(m, t, i, role)
    ensures Naming(Descend(m, t, i, perm, role).0, p) == Naming(m, p)
  {
    var m' := Descend(m, t, i, perm, role).0;
    forall d: nat, j: nat ensures (d, j) in Naming(m', p) <==> (d, j) in Naming(m, p) {
      NamingIff(m, p, d, j);
      NamingIff(m', p, d, j);
      DescendLeaf(m, t, i, perm, role, d, j);
    }
  }

  lemma DescendLeaf(m: Memory, t: nat, i: nat, perm: bv8, role: Role, d: nat, j: nat)
    requires Inv(m) && t in m.tables && RoleFits(m, t, i, role)
    ensures var m' := Descend(m, t, i, perm, role).0;
      && (IsLeafTable(m, d) ==> IsLeafTable(m', d) && At(m'.tables[d], j) == At(m.tables[d], j))
      && (IsLeafTable(m', d) && !IsLeafTable(m, d) ==> At(m'.tables[d], j) == ZERO)
  {
  }

  lemma WalkLeaf(m: Memory, r: nat, va: nat, perm: bv8, d: nat, j: nat)
    requires Inv(m) && IsRoot(m, r)
    ensures var m' := Walk(m, r, va, perm).0;
      && (IsLeafTable(m, d) ==> IsLeafTable(m', d) && At(m'.tables[d], j) == At(m.tables[d], j))
      && (IsLeafTable(m', d) && !IsLeafTable(m, d) ==> At(m'.tables[d], j) == ZERO)
  {
    var i4, i3 := P4X(va), P3X(va);
    DescendKeeps(m, r, i4, perm, Second(i4, r));
    var (m1, q) := Descend(m, r, i4, perm, Second(i4, r));
    DescendLeaf(m, r, i4, perm, Second(i4, r), d, j);
    if q.Dir? {
      assert LinkOk(m1, r, i4);
      DescendLeaf(m1, q.value, i3, perm, Third(q.value, i3), d, j);
    }
    hide Descend;
  }

  // ----- the operations

  /** remove_from_pgdir: a present entry is cleared, and its page freed if this was the last. The second
      result is the page freed. */
  function Detach(s: Pages, d: nat, i: nat): (Pages, Option<nat>)
    requires RefsRight(s) && IsLeafTable(s.mem, d)
  {
    var e := At(s.mem.tables[d], i);
    if !Present(e) then (s, None)
    else
      NamedHasRef(s, d, i);
      var n := s.ref[e.base] - 1;
      (Pages(SetLeaf(s.mem, d, i, ZERO), s.ref[e.base := n]), if n == 0 then Some(e.base) else None)
  }

  lemma NamedHasRef(s: Pages, d: nat, i: nat)
    requires RefsRight(s) && IsLeafTable(s.mem, d) && Present(At(s.mem.tables[d], i))
    ensures var p := At(s.mem.tables[d], i).base;
      p in s.ref && s.ref[p] >= 1
  {
    NamingIff(s.mem, At(s.mem.tables[d], i).base, d, i);
  }

  /** A page is freed in a step exactly if the step took away the last entry naming it. */
  ghost predicate FreesLast(s: Pages, s': Pages, freed: Option<nat>) {
    && s'.ref.Keys == s.ref.Keys
    && (freed.Some? ==> freed.value in s.ref)
    && (forall p | p in s.ref :: freed == Some(p) <==> Naming(s.mem, p) != {} && Naming(s'.mem, p) == {})
  }

  lemma WithoutOne(a: set<(nat, nat)>, x: (nat, nat))
    ensures |a - {x}| == if x in a then |a| - 1 else |a|
    ensures x in a ==> (a - {x} == {} <==> |a| == 1)
  {
    if x in a {
      assert a == (a - {x}) + {x};
    } else {
      assert a - {x} == a;
    }
  }

  lemma AddedOne(a: set<(nat, nat)>, x: (nat, nat))
    requires x !in a
    ensures |a + {x}| == |a| + 1 && a + {x} != {} && a - {x} == a
  {
    assert x in a + {x};
  }

  lemma DetachPage(s: Pages, d: nat, i: nat, p: nat)
    requires RefsRight(s) && IsLeafTable(s.mem, d) && p in s.ref && Present(At(s.mem.tables[d], i))
    ensures var (s', freed) := Detach(s, d, i);
      && p in s'.ref && s'.ref[p] == |Naming(s'.mem, p)|
      && (freed == Some(p) <==> Naming(s.mem, p) != {} && Naming(s'.mem, p) == {})
  {
    NamedHasRef(s, d, i);
    SetLeafNaming(s.mem, d, i, ZERO, p);
    NamingIff(s.mem, p, d, i);
    WithoutOne(Naming(s.mem, p), (d, i));
    hide Naming, Inv, SetLeaf, LinkOk;
  }

  lemma DetachRight(s: Pages, d: nat, i: nat)
    requires RefsRight(s) && IsLeafTable(s.mem, d)
    ensures var (s', freed) := Detach(s, d, i);
      && RefsRight(s') && FreesLast(s, s', freed) && IsLeafTable(s'.mem, d)
      && (Present(At(s.mem.tables[d], i)) ==> s'.mem == SetLeaf(s.mem, d, i, ZERO))
  {
    var (s', freed) := Detach(s, d, i);
    SetLeafKeeps(s.mem, d, i, ZERO);
    if Present(At(s.mem.tables[d], i)) {
      NamedHasRef(s, d, i);
    }
    forall p | p in s.ref
      ensures s'.ref[p] == |Naming(s'.mem, p)|
      ensures freed == Some(p) <==> Naming(s.mem, p) != {} && Naming(s'.mem, p) == {}
    {
      if Present(At(s.mem.tables[d], i)) {
        DetachPage(s, d, i, p);
      }
    }
    hide Naming, Inv, SetLeaf;
  }

  /** The entry insert_page writes. */
  function Mapping(page: nat, perm: bv8): Entry {
    Entry(page, PG_PS | PG_P | perm)
  }

  lemma MappingPresent(perm: bv8)
    ensures (PG_PS | PG_P | perm) & PG_P != 0
  {
  }

  /** Write an entry for a page where none is present, and count it. */
  function Attach(s: Pages, d: nat, i: nat, page: nat, perm: bv8): Pages
    requires d in s.mem.tables && page in s.ref
  {
    Pages(SetLeaf(s.mem, d, i, Mapping(page, perm)), s.ref[page := s.ref[page] + 1])
  }

  lemma AttachPage(s: Pages, d: nat, i: nat, page: nat, perm: bv8, p: nat)
    requires RefsRight(s) && IsLeafTable(s.mem, d) && !Present(At(s.mem.tables[d], i)) && page in s.ref && p in s.ref
    ensures var s' := Attach(s, d, i, page, perm);
      && s'.ref[p] == |Naming(s'.mem, p)|
      && (p == page ==> Naming(s'.mem, p) != {}) && (p != page ==> Naming(s'.mem, p) == Naming(s.mem, p))
  {
    var s', e := Attach(s, d, i, page, perm), Mapping(page, perm);
    MappingPresent(perm);
    SetLeafNaming(s.mem, d, i, e, p);
    NamingIff(s.mem, p, d, i);
    AddedOne(Naming(s.mem, p), (d, i));
    hide Naming, Inv, SetLeaf, LinkOk;
  }

  lemma AttachRight(s: Pages, d: nat, i: nat, page: nat, perm: bv8)
    requires RefsRight(s) && IsLeafTable(s.mem, d) && !Present(At(s.mem.tables[d], i)) && page in s.ref
    ensures var s' := Attach(s, d, i, page, perm);
      && RefsRight(s')
      && (forall p | p in s.ref && p != page :: Naming(s'.mem, p) == Naming(s.mem, p))
      && Naming(s'.mem, page) != {}
  {
    var s', e := Attach(s, d, i, page, perm), Mapping(page, perm);
    SetLeafKeeps(s.mem, d, i, e);
    forall p | p in s.ref
      ensures s'.ref[p] == |Naming(s'.mem, p)|
      ensures p == page ==> Naming(s'.mem, p) != {}
      ensures p != page ==> Naming(s'.mem, p) == Naming(s.mem, p)
    {
      AttachPage(s, d, i, page, perm, p);
    }
    hide Naming, Inv, SetLeaf, LinkOk;
  }

  /** An entry naming the page already is only rewritten. */
  lemma RewriteRight(s: Pages, d: nat, i: nat, page: nat, perm: bv8)
    requires RefsRight(s) && IsLeafTable(s.mem, d) && Names(s.mem, d, i, page) && page in s.ref
    ensures var s' := s.(mem := SetLeaf(s.mem, d, i, Mapping(page, perm)));
      RefsRight(s') && forall p :: Naming(s'.mem, p) == Naming(s.mem, p)
  {
    var e := Mapping(page, perm);
    var m' := SetLeaf(s.mem, d, i, e);
    MappingPresent(perm);
    SetLeafKeeps(s.mem, d, i, e);
    forall p ensures Naming(m', p) == Naming(s.mem, p) {
      SetLeafNaming(s.mem, d, i, e, p);
      NamingIff(s.mem, p, d, i);
    }
    hide Naming, Inv, SetLeaf, LinkOk;
  }

  lemma WalkRight(s: Pages, r: nat, va: nat)
    requires RefsRight(s) && IsRoot(s.mem, r)
    ensures var (m1, d) := Walk(s.mem, r, va, PG_U | PG_W);
      && RefsRight(s.(mem := m1)) && IsRoot(m1, r)
      && (forall p :: Naming(m1, p) == Naming(s.mem, p))
      && (d.Dir? ==> IsLeafTable(m1, d.value) && FindDir(m1, r, va) == Some(d.value))
  {
    WalkKeeps(s.mem, r, va, PG_U | PG_W);
    var (m1, d) := Walk(s.mem, r, va, PG_U | PG_W);
    forall p ensures Naming(m1, p) == Naming(s.mem, p) {
      WalkNaming(s.mem, r, va, PG_U | PG_W, p);
    }
    forall c: nat, j: nat | IsLeafTable(m1, c) && Present(At(m1.tables[c], j))
      ensures At(m1.tables[c], j).base in s.ref
    {
      WalkLeaf(s.mem, r, va, PG_U | PG_W, c, j);
    }
    if d.Dir? {
      DirRole(m1, r, va);
    }
    hide Naming, Walk, Inv;
  }

  /** insert_page once the table is there; the third result is the page freed on the way. */
  function InsertAt(s: Pages, d: nat, i: nat, page: nat, perm: bv8, rewrite: bool): (Pages, Code, Option<nat>)
    requires RefsRight(s) && IsLeafTable(s.mem, d) && page in s.ref
  {
    var e := At(s.mem.tables[d], i);
    if Blocked(e, page, rewrite) then (s.(ref := s.ref[page := s.ref[page] + 1]), Rewrite, None)
    else if Present(e) && e.base == page then (s.(mem := SetLeaf(s.mem, d, i, Mapping(page, perm))), Success, None)
    else
      DetachRight(s, d, i);
      var (s2, freed) := Detach(s, d, i);
      (Attach(s2, d, i, page, perm), Success, freed)
  }

  predicate Blocked(e: Entry, page: nat, rewrite: bool) {
    e != ZERO && !rewrite && e.base != page
  }

  function InsertPage(s: Pages, r: nat, va: nat, page: nat, perm: bv8, rewrite: bool): (Pages, Code, Option<nat>)
    requires RefsRight(s) && IsRoot(s.mem, r) && page in s.ref
  {
    WalkRight(s, r, va);
    var (m1, dir) := Walk(s.mem, r, va, PG_U | PG_W);
    if dir.Stopped? then (s.(mem := m1), Panic, None)
    else InsertAt(s.(mem := m1), dir.value, P2X(va), page, perm, rewrite)
  }

  /** The refusal: something else is mapped there, and rewriting is not allowed. */
  predicate Refused(s: Pages, r: nat, va: nat, page: nat, rewrite: bool)
    requires Inv(s.mem) && IsRoot(s.mem, r)
  {
    && FindDir(s.mem, r, va).Some?
    && var d := FindDir(s.mem, r, va).value;
    && d in s.mem.tables
    && var e := At(s.mem.tables[d], P2X(va));
    && e != Entry(0, 0) && e.base != page && !rewrite
  }

  lemma RefusedIff(s: Pages, r: nat, va: nat, page: nat, rewrite: bool)
    requires RefsRight(s) && IsRoot(s.mem, r)
    ensures var (m1, dir) := Walk(s.mem, r, va, PG_U | PG_W);
      Refused(s, r, va, page, rewrite) <==>
      dir.Dir? && dir.value in m1.tables && Blocked(At(m1.tables[dir.value], P2X(va)), page, rewrite)
  {
    WalkRight(s, r, va);
    var (m1, dir) := Walk(s.mem, r, va, PG_U | PG_W);
    WalkKeeps(s.mem, r, va, PG_U | PG_W);
    WalkLookup(s.mem, r, va, PG_U | PG_W, r, va);
    if FindDir(s.mem, r, va).Some? {
      DirRole(s.mem, r, va);
      WalkLeaf(s.mem, r, va, PG_U | PG_W, FindDir(s.mem, r, va).value, P2X(va));
    } else if dir.Dir? {
      FreshDir(s.mem, r, va, PG_U | PG_W);
    }
    hide Walk, Naming, Inv;
  }

  /** A third-level table that was not there before the walk is new, and empty. */
  lemma FreshDir(m: Memory, r: nat, va: nat, perm: bv8)
    requires Inv(m) && IsRoot(m, r) && FindDir(m, r, va).None?
    ensures var (m1, d) := Walk(m, r, va, perm);
      d.Dir? ==> d.value in m1.tables && m1.tables[d.value] == map[]
  {
    var i, j := P4X(va), P3X(va);
    DescendKeeps(m, r, i, perm, Second(i, r));
    assert LinkOk(m, r, i);
    var (m1, p) := Descend(m, r, i, perm, Second(i, r));
    if p.Dir? {
      assert LinkOk(m1, r, i);
    }
  }

  /** After detaching, the entry is absent and the page to be mapped is named as before. */
  lemma DetachedSlot(s: Pages, d: nat, i: nat, page: nat)
    requires RefsRight(s) && IsLeafTable(s.mem, d) && page in s.ref && !Names(s.mem, d, i, page)
    ensures var s2 := Detach(s, d, i).0;
      && IsLeafTable(s2.mem, d) && !Present(At(s2.mem.tables[d], i))
      && page in s2.ref && Naming(s2.mem, page) == Naming(s.mem, page)
  {
    SetLeafKeeps(s.mem, d, i, ZERO);
    NamingIff(s.mem, page, d, i);
    AddedOne(Naming(s.mem, page), (d, i));
    SetLeafNaming(s.mem, d, i, ZERO, page);
    DetachRight(s, d, i);
    hide Naming, Inv, SetLeaf, LinkOk, RefsRight;
  }

  lemma ReplaceRight(s: Pages, d: nat, i: nat, page: nat, perm: bv8)
    requires RefsRight(s) && IsLeafTable(s.mem, d) && page in s.ref && !Names(s.mem, d, i, page)
    ensures var (s2, freed) := Detach(s, d, i);
      && page in s2.ref && d in s2.mem.tables
      && RefsRight(Attach(s2, d, i, page, perm)) && FreesLast(s, Attach(s2, d, i, page, perm), freed)
  {
    DetachRight(s, d, i);
    DetachedSlot(s, d, i, page);
    var (s2, freed) := Detach(s, d, i);
    AttachRight(s2, d, i, page, perm);
    hide Naming, RefsRight, Detach, IsLeafTable, Names, SetLeaf;
  }

  lemma InsertAtRight(s: Pages, d: nat, page: nat, perm: bv8, rewrite: bool, r: nat, va: nat)
    requires RefsRight(s) && IsLeafTable(s.mem, d) && page in s.ref
    requires IsRoot(s.mem, r) && FindDir(s.mem, r, va) == Some(d)
    ensures var (s', code, freed) := InsertAt(s, d, P2X(va), page, perm, rewrite);
      && code != Panic && (code == Rewrite <==> Blocked(At(s.mem.tables[d], P2X(va)), page, rewrite))
      && (RefsRight(s') <==> code != Rewrite) && (code == Rewrite ==> s'.ref == s.ref[page := s.ref[page] + 1])
      && (code == Success ==>
            FreesLast(s, s', freed) && IsRoot(s'.mem, r) && Lookup(s'.mem, r, va) == Some(Mapping(page, perm)))
  {
    var i := P2X(va);
    var e := At(s.mem.tables[d], i);
    if Blocked(e, page, rewrite) {
      assert s.ref[page] == |Naming(s.mem, page)|;
    } else if Present(e) && e.base == page {
      RewriteRight(s, d, i, page, perm);
      MappingPresent(perm);
      SetLeafLookup(s.mem, d, i, Mapping(page, perm), r, va);
    } else {
      ReplaceRight(s, d, i, page, perm);
      ReplaceLookup(s, d, page, perm, r, va);
    }
    hide Naming, Inv, SetLeaf, Attach, Detach, Lookup, FindDir, Blocked, IsLeafTable;
  }

  /** insert_page keeps every count right exactly if it is not refused: then that of the page is one too high. The
      kernel stops exactly if the pool cannot give the missing tables. On success the page is mapped, and another page is freed
      exactly if this took away its last entry. */
  lemma InsertRight(s: Pages, r: nat, va: nat, page: nat, perm: bv8, rewrite: bool)
    requires RefsRight(s) && IsRoot(s.mem, r) && page in s.ref
    ensures var (s', code, freed) := InsertPage(s, r, va, page, perm, rewrite);
      && (RefsRight(s') <==> !Refused(s, r, va, page, rewrite))
      && (code == Rewrite <==> Refused(s, r, va, page, rewrite))
      && (code == Rewrite ==> s'.ref == s.ref[page := s.ref[page] + 1])
      && (code == Panic <==> Missing(s.mem, r, va) > |s.mem.pool|)
      && (code != Rewrite ==> FreesLast(s, s', freed))
      && (code == Success ==> IsRoot(s'.mem, r) && Lookup(s'.mem, r, va) == Some(Mapping(page, perm)))
  {
    WalkRight(s, r, va);
    WalkKeeps(s.mem, r, va, PG_U | PG_W);
    RefusedIff(s, r, va, page, rewrite);
    var (m1, dir) := Walk(s.mem, r, va, PG_U | PG_W);
    var s1 := s.(mem := m1);
    if dir.Dir? {
      InsertAtRight(s1, dir.value, page, perm, rewrite, r, va);
      var (s', code, freed) := InsertAt(s1, dir.value, P2X(va), page, perm, rewrite);
      if code == Success {
        FreesFrom(s, s1, s', freed);
      }
    } else {
      NothingFreed(s, s1);
    }
    hide Naming, Walk, Inv, InsertAt, Lookup, FindDir, Refused, Missing, Blocked, RefsRight, FreesLast, IsLeafTable,
         IsRoot, At, P2X;
  }

  /** A page mapped at an address, and another one refused there: its count has gone up all the same. */
  lemma RefusedCountsWrong(r: nat, f: nat, g: nat, p: nat, q: nat, perm: bv8)
    requires r != f && r != g && f != g && p != q
    ensures var s := Pages(Memory(map[r := map[]], map[r := Root], [f, g]), map[p := 0, q := 0]);
      && RefsRight(s)
      && var s1 := InsertPage(s, r, 0, p, perm, true).0;
         && RefsRight(s1) && IsRoot(s1.mem, r) && q in s1.ref
         && InsertPage(s1, r, 0, q, perm, false).1 == Rewrite && !RefsRight(InsertPage(s1, r, 0, q, perm, false).0)
  {
    var m := Memory(map[r := map[]], map[r := Root], [f, g]);
    var s := Pages(m, map[p := 0, q := 0]);
    NoneNamed(m, r, p);
    NoneNamed(m, r, q);
    assert RefsRight(s);
    InsertRight(s, r, 0, p, perm, true);
    var s1 := InsertPage(s, r, 0, p, perm, true).0;
    assert !Refused(s, r, 0, p, true) && Missing(m, r, 0) == 2;
    assert Lookup(s1.mem, r, 0) == Some(Mapping(p, perm));
    DirRole(s1.mem, r, 0);
    assert Refused(s1, r, 0, q, false);
    KeysKept(s, r, 0, p, perm, true);
    InsertRight(s1, r, 0, q, perm, false);
  }

  lemma NoneNamed(m: Memory, r: nat, p: nat)
    requires m.tables == map[r := map[]] && m.roles == map[r := Root] && PoolOk(m)
    ensures Inv(m) && Naming(m, p) == {}
  {
    assert m.roles.Keys == m.tables.Keys;
  }

  lemma KeysKept(s: Pages, r: nat, va: nat, page: nat, perm: bv8, rewrite: bool)
    requires RefsRight(s) && IsRoot(s.mem, r) && page in s.ref
    ensures InsertPage(s, r, va, page, perm, rewrite).0.ref.Keys == s.ref.Keys
  {
    WalkRight(s, r, va);
    hide RefsRight, Naming, Walk, SetLeaf, Inv;
  }

  lemma FreesFrom(s: Pages, s1: Pages, s': Pages, freed: Option<nat>)
    requires FreesLast(s1, s', freed) && s1.ref == s.ref && forall p :: Naming(s1.mem, p) == Naming(s.mem, p)
    ensures FreesLast(s, s', freed)
  {
    hide Naming;
  }

  lemma NothingFreed(s: Pages, s1: Pages)
    requires s1.ref == s.ref && forall p :: Naming(s1.mem, p) == Naming(s.mem, p)
    ensures FreesLast(s, s1, None)
  {
    hide Naming;
  }

  lemma ReplaceLookup(s: Pages, d: nat, page: nat, perm: bv8, r: nat, va: nat)
    requires RefsRight(s) && IsLeafTable(s.mem, d) && page in s.ref && IsRoot(s.mem, r)
    requires FindDir(s.mem, r, va) == Some(d) && !Names(s.mem, d, P2X(va), page)
    ensures var s2 := Detach(s, d, P2X(va)).0;
      && page in s2.ref && d in s2.mem.tables
      && var m' := Attach(s2, d, P2X(va), page, perm).mem;
      && Inv(m') && IsRoot(m', r) && Lookup(m', r, va) == Some(Mapping(page, perm))
  {
    var i := P2X(va);
    DetachRight(s, d, i);
    SetLeafLookup(s.mem, d, i, ZERO, r, va);
    var s2 := Detach(s, d, i).0;
    MappingPresent(perm);
    SetLeafLookup(s2.mem, d, i, Mapping(page, perm), r, va);
    hide Lookup, FindDir, Inv, Naming;
  }

  /** What insert_page does to every translation under every root: on success the page, with the flags of a
      large page and those given, stands at the address under the roots that share the table, and in every case
      nothing else changes. */
  lemma InsertLookup(s: Pages, r: nat, va: nat, page: nat, perm: bv8, rewrite: bool, r': nat, va': nat)
    requires RefsRight(s) && IsRoot(s.mem, r) && IsRoot(s.mem, r') && page in s.ref
    ensures var (s', code, _) := InsertPage(s, r, va, page, perm, rewrite);
      && Inv(s'.mem) && IsRoot(s'.mem, r) && IsRoot(s'.mem, r')
      && Lookup(s'.mem, r', va') ==
         if code == Success && SamePage(va, va') && Shared(s'.mem, r, r', va) then Some(Entry(page, PG_PS | PG_P | perm))
         else Lookup(s.mem, r', va')
  {
    WalkRight(s, r, va);
    WalkKeeps(s.mem, r, va, PG_U | PG_W);
    WalkLookup(s.mem, r, va, PG_U | PG_W, r', va');
    var (m1, dir) := Walk(s.mem, r, va, PG_U | PG_W);
    if dir.Dir? {
      InsertAtLookup(s.(mem := m1), dir.value, page, perm, rewrite, r, va, r', va');
    }
    hide Walk, Inv, Lookup, FindDir, InsertAt, RefsRight, Shared, SamePage, IsLeafTable;
  }

  lemma InsertAtLookup(s: Pages, d: nat, page: nat, perm: bv8, rewrite: bool, r: nat, va: nat, r': nat, va': nat)
    requires RefsRight(s) && IsLeafTable(s.mem, d) && page in s.ref
    requires IsRoot(s.mem, r) && IsRoot(s.mem, r') && FindDir(s.mem, r, va) == Some(d)
    ensures var (s', code, _) := InsertAt(s, d, P2X(va), page, perm, rewrite);
      && code != Panic && Inv(s'.mem) && IsRoot(s'.mem, r) && IsRoot(s'.mem, r')
      && Lookup(s'.mem, r', va') ==
         if code == Success && SamePage(va, va') && Shared(s'.mem, r, r', va) then Some(Entry(page, PG_PS | PG_P | perm))
         else Lookup(s.mem, r', va')
  {
    var e := At(s.mem.tables[d], P2X(va));
    MappingPresent(perm);
    DetachRight(s, d, P2X(va));
    if !Blocked(e, page, rewrite) {
      if Present(e) && e.base == page {
        LeafLookup(s.mem, r, va, Mapping(page, perm), r', va');
      } else {
        var s2 := Detach(s, d, P2X(va)).0;
        LeafLookup(s.mem, r, va, ZERO, r', va');
        LeafLookup(s2.mem, r, va, Mapping(page, perm), r', va');
      }
    }
    hide Naming, Inv, Lookup, FindDir, Shared, SamePage, SetLeaf, Blocked, RefsRight, FreesLast;
  }

  /** remove_page. */
  function RemovePage(s: Pages, r: nat, va: nat): (Pages, Option<nat>)
    requires RefsRight(s) && IsRoot(s.mem, r)
  {
    match FindDir(s.mem, r, va)
    case None => (s, None)
    case Some(d) => DirRole(s.mem, r, va); Detach(s, d, P2X(va))
  }

  /** remove_page keeps every count right, frees a page exactly if its last entry went, and leaves the address
      unmapped. */
  lemma RemoveRight(s: Pages, r: nat, va: nat)
    requires RefsRight(s) && IsRoot(s.mem, r)
    ensures var (s', freed) := RemovePage(s, r, va);
      && RefsRight(s') && FreesLast(s, s', freed) && IsRoot(s'.mem, r) && Lookup(s'.mem, r, va).None?
  {
    if FindDir(s.mem, r, va).Some? {
      DirRole(s.mem, r, va);
      var d := FindDir(s.mem, r, va).value;
      DetachRight(s, d, P2X(va));
      SetLeafLookup(s.mem, d, P2X(va), ZERO, r, va);
    }
  }

  /** What remove_page does to every translation under every root: the address is unmapped under the roots that
      share the table, and nothing else changes. */
  lemma RemoveLookup(s: Pages, r: nat, va: nat, r': nat, va': nat)
    requires RefsRight(s) && IsRoot(s.mem, r) && IsRoot(s.mem, r')
    ensures var s' := RemovePage(s, r, va).0;
      && Inv(s'.mem) && IsRoot(s'.mem, r')
      && Lookup(s'.mem, r', va') ==
         if SamePage(va, va') && Shared(s.mem, r, r', va) then None else Lookup(s.mem, r', va')
  {
    if FindDir(s.mem, r, va).Some? {
      DirRole(s.mem, r, va);
      var d := FindDir(s.mem, r, va).value;
      DetachRight(s, d, P2X(va));
      LeafLookup(s.mem, r, va, ZERO, r', va');
      SameEntry(s.mem, r, va, r', va');
    }
    hide Naming, RefsRight, FreesLast, SetLeaf;
  }

  /** The same page under roots that share the table has the same entry. */
  lemma SameEntry(m: Memory, r: nat, va: nat, r': nat, va': nat)
    requires Inv(m) && IsRoot(m, r) && IsRoot(m, r')
    ensures SamePage(va, va') && Shared(m, r, r', va) ==> Lookup(m, r', va') == Lookup(m, r, va)
  {
  }

  // ----- histories

  datatype Op = Insert(root: nat, va: nat, page: nat, perm: bv8) | Remove(root: nat, va: nat)

  /** A step; after a stop of the kernel more may follow here than in the source. */
  ghost predicate IsStep(s: Pages, op: Op, s': Pages, freed: Option<nat>) {
    match op
    case Insert(r, va, page, perm) =>
      && IsRoot(s.mem, r) && page in s.ref
      && (RefsRight(s) ==>
            InsertPage(s, r, va, page, perm, true).0 == s' && InsertPage(s, r, va, page, perm, true).2 == freed)
    case Remove(r, va) => IsRoot(s.mem, r) && (RefsRight(s) ==> RemovePage(s, r, va) == (s', freed))
  }

  ghost predicate IsHistory(states: seq<Pages>, ops: seq<Op>, freed: seq<Option<nat>>) {
    && |states| == |ops| + 1 && |freed| == |ops|
    && forall i | 0 <= i < |ops| :: IsStep(states[i], ops[i], states[i + 1], freed[i])
  }

  /** With rewriting allowed, over any history in any number of directories every count is the number of
      present entries naming the page, and each step frees a page exactly if that number falls to zero. */
  lemma {:induction false} RefLaw(states: seq<Pages>, ops: seq<Op>, freed: seq<Option<nat>>, n: nat)
    requires IsHistory(states, ops, freed) && RefsRight(states[0]) && n < |states|
    ensures RefsRight(states[n])
    ensures n < |ops| ==> FreesLast(states[n], states[n + 1], freed[n])
  {
    if n > 0 {
      RefLaw(states, ops, freed, n - 1);
      var s := states[n - 1];
      assert IsStep(s, ops[n - 1], states[n], freed[n - 1]);
      match ops[n - 1]
      case Insert(r, va, page, perm) => InsertRight(s, r, va, page, perm, true);
      case Remove(r, va) => RemoveRight(s, r, va);
    }
    if n < |ops| {
      var s := states[n];
      assert IsStep(s, ops[n], states[n + 1], freed[n]);
      match ops[n]
      case Insert(r, va, page, perm) => InsertRight(s, r, va, page, perm, true);
      case Remove(r, va) => RemoveRight(s, r, va);
    }
    hide InsertPage, RemovePage, FreesLast;
  }

  // ----- the code

  lemma DetachKeys(s: Pages, d: nat, i: nat)
    requires RefsRight(s) && IsLeafTable(s.mem, d)
    ensures var s' := Detach(s, d, i).0;
      d in s.mem.tables && d in s'.mem.tables && s'.ref.Keys == s.ref.Keys
    ensures !Present(At(s.mem.tables[d], i)) ==> Detach(s, d, i) == (s, None)
  {
  }

  class PageManager {
    var mem: Memory
    var ref: map<nat, nat>

    function S(): Pages
      reads this
    {
      Pages(mem, ref)
    }

    /** remove_from_pgdir. */
    method RemoveFromDir(d: nat, i: nat) returns (freed: Option<nat>)
      requires RefsRight(S()) && IsLeafTable(mem, d)
      modifies this
      ensures (S(), freed) == Detach(old(S()), d, i)
    {
      freed := None;
      var e := At(mem.tables[d], i);
      if Present(e) {
        NamedHasRef(S(), d, i);
        ref := ref[e.base := ref[e.base] - 1];
        if ref[e.base] == 0 {
          freed := Some(e.base);
        }
        mem := SetLeaf(mem, d, i, ZERO);
      }
    }

    /** insert_page, once the table is known. Raising the count first and lowering it again where the entry names
        the page already comes to leaving it alone there. */
    method InsertIn(d: nat, i: nat, page: nat, perm: bv8, rewrite: bool) returns (code: Code, freed: Option<nat>)
      requires RefsRight(S()) && IsLeafTable(mem, d) && page in ref
      modifies this
      ensures (S(), code, freed) == InsertAt(old(S()), d, i, page, perm, rewrite)
    {
      DetachRight(S(), d, i);
      var e := At(mem.tables[d], i);
      freed := None;
      assert !Present(ZERO);
      DetachKeys(S(), d, i);
      hide Naming, RefsRight, Inv, FreesLast, SetLeaf, Detach, Attach, IsLeafTable, Mapping;
      if e != ZERO {
        if !rewrite && e.base != page {
          ref := ref[page := ref[page] + 1];
          return Rewrite, None;
        }
        if Present(e) && e.base == page {
          mem := SetLeaf(mem, d, i, Mapping(page, perm));
          return Success, None;
        }
        freed := RemoveFromDir(d, i);
      }
      Put(d, i, page, perm);
      code := Success;
    }

    method Put(d: nat, i: nat, page: nat, perm: bv8)
      requires d in mem.tables && page in ref
      modifies this
      ensures S() == Attach(old(S()), d, i, page, perm)
    {
      ref := ref[page := ref[page] + 1];
      mem := SetLeaf(mem, d, i, Mapping(page, perm));
    }

    /** insert_page. */
    method Insert(r: nat, va: nat, page: nat, perm: bv8, rewrite: bool) returns (code: Code, freed: Option<nat>)
      requires RefsRight(S()) && IsRoot(mem, r) && page in ref
      modifies this
      ensures (S(), code, freed) == InsertPage(old(S()), r, va, page, perm, rewrite)
    {
      WalkRight(S(), r, va);
      var (m1, dir) := Walk(mem, r, va, PG_U | PG_W);
      mem := m1;
      if dir.Stopped? {
        return Panic, None;
      }
      hide Walk, InsertAt, RefsRight, IsLeafTable;
      code, freed := InsertIn(dir.value, P2X(va), page, perm, rewrite);
    }

    /** remove_page. */
    method Remove(r: nat, va: nat) returns (freed: Option<nat>)
      requires RefsRight(S()) && IsRoot(mem, r)
      modifies this
      ensures (S(), freed) == RemovePage(old(S()), r, va)
    {
      freed := None;
      var dir := FindDir(mem, r, va);
      if dir.Some? {
        DirRole(mem, r, va);
        freed := RemoveFromDir(dir.value, P2X(va));
      }
    }
  }
}
