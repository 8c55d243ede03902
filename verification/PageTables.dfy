/** Three-level page tables with 2 MB pages. Table frames come from a pool that never hands out a frame in
    use, so the tables under a root form a tree; the roots of different address spaces share the tables of
    the kernel half. */
module PageTables {
  import opened Prelude

  const PG_P: bv8 := 0x01
  const PG_W: bv8 := 0x02
  const PG_U: bv8 := 0x04
  const PG_PS: bv8 := 0x80
  const PAGE_SIZE: nat := 0x20_0000
  const USER_SLOTS: nat := 256

  /** A table entry: the word is `base | flags`, and the low eight bits of `base` are zero. */
  datatype Entry = Entry(base: nat, flags: bv8)

  /** The split of an entry into base and flags is the one remove_flags makes on the machine word. */
  lemma WordSplit(base: bv64, flags: bv64)
    requires base & 0xFF == 0 && flags & !0xFF == 0
    ensures ((base | flags) >> 8) << 8 == base
    ensures (base | flags) & 0xFF == flags
    ensures (base | flags) & 1 == flags & 1
  {
  }

  predicate Present(e: Entry) {
    e.flags & PG_P != 0
  }

  lemma FlagsPresent(perm: bv8)
    ensures (PG_P | PG_U | perm) & PG_P != 0
    ensures (PG_PS | PG_P | PG_U | perm) & PG_P != 0
  {
  }

  function P4X(va: nat): nat { va / 0x80_0000_0000 % 512 }
  function P3X(va: nat): nat { va / 0x4000_0000 % 512 }
  function P2X(va: nat): nat { va / PAGE_SIZE % 512 }

  predicate SamePage(va: nat, va': nat) {
    P4X(va) == P4X(va') && P3X(va) == P3X(va') && P2X(va) == P2X(va')
  }

  /** The three indices together are the page number, modulo the 2^27 pages of a 48-bit space. */
  lemma SamePageIff(va: nat, va': nat)
    ensures SamePage(va, va') <==> va / PAGE_SIZE % 0x800_0000 == va' / PAGE_SIZE % 0x800_0000
  {
    IndexDigits(va);
    IndexDigits(va');
    DigitsUnique(P4X(va), P3X(va), P2X(va), P4X(va'), P3X(va'), P2X(va'));
    hide P4X, P3X, P2X;
  }

  lemma DigitsUnique(a: nat, b: nat, c: nat, a': nat, b': nat, c': nat)
    requires a < 512 && b < 512 && c < 512 && a' < 512 && b' < 512 && c' < 512
    ensures a * 0x4_0000 + b * 512 + c == a' * 0x4_0000 + b' * 512 + c' <==> a == a' && b == b' && c == c'
  {
  }

  lemma IndexDigits(va: nat)
    ensures va / PAGE_SIZE % 0x800_0000 == P4X(va) * 0x4_0000 + P3X(va) * 512 + P2X(va)
  {
    var q := va / PAGE_SIZE;
    assert va / 0x4000_0000 == q / 512;
    assert va / 0x80_0000_0000 == q / 0x4_0000;
    assert q / 512 / 512 == q / 0x4_0000;
  }

  // ----- tables

  /** An index that is not listed holds a zero entry. */
  type Table = map<nat, Entry>

  function At(t: Table, i: nat): Entry {
    if i in t then t[i] else Entry(0, 0)
  }

  /** What a frame is used for: `owner` is the root a second-level table was made under. */
  datatype Role = Root | Second(index: nat, owner: nat) | Third(parent: nat, index: nat)

  /** The tables by physical address, the role of each, and the frames the cache will hand out. */
  datatype Memory = Memory(tables: map<nat, Table>, roles: map<nat, Role>, pool: seq<nat>)

  predicate IsRoot(m: Memory, r: nat) {
    r in m.tables && r in m.roles && m.roles[r] == Root
  }

  /** Entry `i` of table `t` leads to a table with the role that entry gives. */
  ghost predicate LinkOk(m: Memory, t: nat, i: nat)
    requires t in m.tables && t in m.roles
  {
    var e := At(m.tables[t], i);
    Present(e) && !m.roles[t].Third? ==>
      && e.base in m.tables && e.base in m.roles
      && match m.roles[t]
         case Root =>
           && m.roles[e.base].Second? && m.roles[e.base].index == i
           && (i < USER_SLOTS ==> m.roles[e.base].owner == t)
         case Second(_, _) => m.roles[e.base] == Third(t, i)
         case Third(_, _) => true
  }

  ghost predicate PoolOk(m: Memory) {
    && (forall i, j | 0 <= i < j < |m.pool| :: m.pool[i] != m.pool[j])
    && (forall i | 0 <= i < |m.pool| :: m.pool[i] !in m.tables)
  }

  ghost predicate Inv(m: Memory) {
    && m.roles.Keys == m.tables.Keys
    && PoolOk(m)
    && (forall t, i: nat | t in m.tables :: LinkOk(m, t, i))
  }

  // ----- what a walk reads

  /** The third-level table for an address. */
  function FindDir(m: Memory, r: nat, va: nat): Option<nat>
    requires Inv(m) && IsRoot(m, r)
  {
    var e := At(m.tables[r], P4X(va));
    if !Present(e) then None
    else
      assert LinkOk(m, r, P4X(va));
      var f := At(m.tables[e.base], P3X(va));
      if !Present(f) then None else Some(f.base)
  }

  lemma DirRole(m: Memory, r: nat, va: nat)
    requires Inv(m) && IsRoot(m, r) && FindDir(m, r, va).Some?
    ensures var d := FindDir(m, r, va).value;
      var p := At(m.tables[r], P4X(va)).base;
      && d in m.tables && p in m.tables && d in m.roles && p in m.roles
      && m.roles[d] == Third(p, P3X(va)) && m.roles[p].Second? && m.roles[p].index == P4X(va)
      && (P4X(va) < USER_SLOTS ==> m.roles[p].owner == r)
  {
    var p := At(m.tables[r], P4X(va)).base;
    assert LinkOk(m, r, P4X(va)) && LinkOk(m, p, P3X(va));
  }

  /** The translation of an address: its leaf entry, if there is a present one. */
  function Lookup(m: Memory, r: nat, va: nat): Option<Entry>
    requires Inv(m) && IsRoot(m, r)
  {
    match FindDir(m, r, va)
    case None => None
    case Some(d) =>
      DirRole(m, r, va);
      var e := At(m.tables[d], P2X(va));
      if Present(e) then Some(e) else None
  }

  /** A third-level table is reached at one pair of upper indices only, and in the user half under one
      root only. */
  lemma DirUnique(m: Memory, r: nat, va: nat, r': nat, va': nat)
    requires Inv(m) && IsRoot(m, r) && IsRoot(m, r') && FindDir(m, r, va).Some?
    requires FindDir(m, r', va') == FindDir(m, r, va)
    ensures P4X(va') == P4X(va) && P3X(va') == P3X(va)
    ensures P4X(va) < USER_SLOTS ==> r' == r
  {
    DirRole(m, r, va);
    DirRole(m, r', va');
  }

  // ----- descending one level

  /** What a walk comes to: the kernel stops, there is no table, or the table. */
  datatype Found = Stopped | Absent | Dir(value: nat)

  /** Entry `i` of table `t`: follow it, or if it is absent put a fresh empty table there; without a frame for
      it an assertion stops the kernel. */
  function Descend(m: Memory, t: nat, i: nat, perm: bv8, role: Role): (Memory, Found)
    requires t in m.tables
  {
    var e := At(m.tables[t], i);
    if Present(e) then (m, Dir(e.base))
    else if m.pool == [] then (m, Stopped)
    else
      var f := m.pool[0];
      (Memory(m.tables[f := map[]][t := m.tables[t][i := Entry(f, PG_P | PG_U | perm)]], m.roles[f := role], m.pool[1..]),
       Dir(f))
  }

  /** The role a new table under entry `i` of `t` takes. */
  predicate RoleFits(m: Memory, t: nat, i: nat, role: Role)
    requires t in m.roles
  {
    match m.roles[t]
    case Root => role == Second(i, t)
    case Second(_, _) => role == Third(t, i)
    case Third(_, _) => false
  }

  lemma DescendKeeps(m: Memory, t: nat, i: nat, perm: bv8, role: Role)
    requires Inv(m) && t in m.tables && RoleFits(m, t, i, role)
    ensures var (m', r) := Descend(m, t, i, perm, role);
      && Inv(m')
      && (r.Stopped? ==> m' == m)
      && (r.Dir? ==> t in m'.tables && Present(At(m'.tables[t], i)) && At(m'.tables[t], i).base == r.value)
      && (forall x | x in m.roles :: x in m'.roles && m'.roles[x] == m.roles[x])
  {
    var (m', r) := Descend(m, t, i, perm, role);
    assert LinkOk(m, t, i);
    if r.Dir? && m' != m {
      FlagsPresent(perm);
      var f := m.pool[0];
      forall u, j: nat | u in m'.tables ensures LinkOk(m', u, j) {
        if u in m.tables {
          assert LinkOk(m, u, j);
        }
      }
    }
  }

  /** A fresh empty table changes no translation. */
  lemma DescendLookup(m: Memory, t: nat, i: nat, perm: bv8, role: Role, r: nat, va: nat)
    requires Inv(m) && t in m.tables && RoleFits(m, t, i, role) && IsRoot(m, r)
    ensures var m' := Descend(m, t, i, perm, role).0;
      && Inv(m') && IsRoot(m', r) && Lookup(m', r, va) == Lookup(m, r, va)
      && (FindDir(m, r, va).Some? ==> FindDir(m', r, va) == FindDir(m, r, va))
  {
    DescendKeeps(m, t, i, perm, role);
    var e := At(m.tables[r], P4X(va));
    assert LinkOk(m, r, P4X(va));
    if Present(e) {
      assert LinkOk(m, e.base, P3X(va));
    }
  }

  // ----- walking

  /** walk_pgdir with creation: the third-level table for an address. A dry pool stops the kernel. */
  function Walk(m: Memory, r: nat, va: nat, perm: bv8): (Memory, Found)
    requires Inv(m) && IsRoot(m, r)
  {
    var i, j := P4X(va), P3X(va);
    DescendKeeps(m, r, i, perm, Second(i, r));
    var (m1, p) := Descend(m, r, i, perm, Second(i, r));
    if p.Stopped? then (m1, Stopped)
    else
      assert LinkOk(m1, r, i);
      Descend(m1, p.value, j, perm, Third(p.value, j))
  }

  /** The number of tables a walk must create. */
  function Missing(m: Memory, r: nat, va: nat): nat
    requires Inv(m) && IsRoot(m, r)
  {
    if !Present(At(m.tables[r], P4X(va))) then 2 else if FindDir(m, r, va).None? then 1 else 0
  }

  lemma WalkKeeps(m: Memory, r: nat, va: nat, perm: bv8)
    requires Inv(m) && IsRoot(m, r)
    ensures var (m', d) := Walk(m, r, va, perm);
      && Inv(m')
      && (forall x | x in m.roles :: x in m'.roles && m'.roles[x] == m.roles[x])
      && (d.Dir? <==> Missing(m, r, va) <= |m.pool|)
      && (d.Stopped? <==> Missing(m, r, va) > |m.pool|)
      && (d.Stopped? ==> m'.pool == [])
      && (d.Dir? ==> FindDir(m', r, va) == Some(d.value) && |m'.pool| == |m.pool| - Missing(m, r, va))
  {
    var i, j := P4X(va), P3X(va);
    var role := Second(i, r);
    DescendKeeps(m, r, i, perm, role);
    var (m1, p) := Descend(m, r, i, perm, role);
    assert LinkOk(m, r, i);
    if p.Dir? {
      assert LinkOk(m1, r, i);
      DescendKeeps(m1, p.value, j, perm, Third(p.value, j));
    }
  }

  lemma WalkLookup(m: Memory, r: nat, va: nat, perm: bv8, r': nat, va': nat)
    requires Inv(m) && IsRoot(m, r) && IsRoot(m, r')
    ensures var m' := Walk(m, r, va, perm).0;
      && Inv(m') && IsRoot(m', r') && Lookup(m', r', va') == Lookup(m, r', va')
      && (FindDir(m, r', va').Some? ==> FindDir(m', r', va') == FindDir(m, r', va'))
  {
    var i, j := P4X(va), P3X(va);
    DescendKeeps(m, r, i, perm, Second(i, r));
    DescendLookup(m, r, i, perm, Second(i, r), r', va');
    var (m1, p) := Descend(m, r, i, perm, Second(i, r));
    if p.Dir? {
      assert LinkOk(m1, r, i);
      DescendLookup(m1, p.value, j, perm, Third(p.value, j), r', va');
    }
  }

  function EntryAt(m: Memory, t: nat, i: nat): Entry {
    if t in m.tables then At(m.tables[t], i) else Entry(0, 0)
  }

  lemma DescendWrites(m: Memory, t0: nat, j: nat, perm: bv8, role: Role, t: nat, i: nat)
    requires Inv(m) && t0 in m.tables
    ensures var m' := Descend(m, t0, j, perm, role).0;
      var old', new' := EntryAt(m, t, i), EntryAt(m', t, i);
      && (forall x | x in m'.pool :: x in m.pool) && (forall x | x in m.tables :: x in m'.tables)
      && (Present(old') ==> new' == old')
      && (new' != old' ==>
            t == t0 && i == j && new'.flags == PG_P | PG_U | perm && new'.base in m.pool && new'.base in m'.tables)
  {
    assert !Present(Entry(0, 0));
    assert m.pool != [] ==> m.pool[0] !in m.tables && m.pool[0] in m.pool;
  }

  /** What a walk writes: where an entry on its way was absent, a new table with the flags of a user table and
      those given. No other entry changes, and a new table has no other entry. */
  lemma WalkWrites(m: Memory, r: nat, va: nat, perm: bv8, t: nat, i: nat)
    requires Inv(m) && IsRoot(m, r)
    ensures var m' := Walk(m, r, va, perm).0;
      var old', new' := EntryAt(m, t, i), EntryAt(m', t, i);
      && (Present(old') ==> new' == old')
      && (new' != old' ==>
            && new'.flags == PG_P | PG_U | perm && new'.base in m.pool && new'.base in m'.tables
            && ((t == r && i == P4X(va)) || (t == EntryAt(m', r, P4X(va)).base && i == P3X(va))))
  {
    var i4, i3 := P4X(va), P3X(va);
    DescendKeeps(m, r, i4, perm, Second(i4, r));
    DescendWrites(m, r, i4, perm, Second(i4, r), t, i);
    var (m1, p) := Descend(m, r, i4, perm, Second(i4, r));
    if p.Dir? {
      assert LinkOk(m1, r, i4);
      assert EntryAt(m1, r, i4).base == p.value;
      DescendWrites(m1, p.value, i3, perm, Third(p.value, i3), t, i);
      DescendWrites(m1, p.value, i3, perm, Third(p.value, i3), r, i4);
    }
    hide P4X, P3X, Inv, Descend, At, Present, LinkOk;
  }

  // ----- mapping one page

  function SetLeaf(m: Memory, d: nat, i: nat, e: Entry): Memory
    requires d in m.tables
  {
    var t: Table := m.tables[d][i := e];
    m.(tables := m.tables[d := t])
  }

  lemma SetLeafLookup(m: Memory, d: nat, i: nat, e: Entry, r: nat, va: nat)
    requires Inv(m) && d in m.tables && m.roles[d].Third? && IsRoot(m, r)
    ensures var m' := SetLeaf(m, d, i, e);
      && Inv(m') && IsRoot(m', r) && FindDir(m', r, va) == FindDir(m, r, va)
      && Lookup(m', r, va) ==
         if FindDir(m, r, va) == Some(d) && P2X(va) == i then (if Present(e) then Some(e) else None)
         else Lookup(m, r, va)
  {
    var m' := SetLeaf(m, d, i, e);
    forall u, j: nat | u in m'.tables ensures LinkOk(m', u, j) {
      assert LinkOk(m, u, j);
    }
    assert LinkOk(m, r, P4X(va));
    if FindDir(m, r, va).Some? {
      DirRole(m, r, va);
    }
  }

  /** Without a table for the page the kernel stops. */
  datatype Code = Success | Rewrite | Panic

  function Leaf(pa: nat, perm: bv8): Entry {
    Entry(pa, PG_PS | PG_P | PG_U | perm)
  }

  function MapPage(m: Memory, r: nat, va: nat, pa: nat, perm: bv8): (Memory, Code)
    requires Inv(m) && IsRoot(m, r)
  {
    WalkKeeps(m, r, va, perm);
    var (m1, d) := Walk(m, r, va, perm);
    if d.Stopped? then (m1, Panic)
    else
      DirRole(m1, r, va);
      if Present(At(m1.tables[d.value], P2X(va))) then (m1, Rewrite)
      else (SetLeaf(m1, d.value, P2X(va), Leaf(pa, perm)), Success)
  }

  /** Mapping a page succeeds exactly if it is not mapped and the pool has the tables that are missing; a
      mapped page is never overwritten, and the kernel stops exactly if tables are missing and the pool is short. */
  lemma MapPageCode(m: Memory, r: nat, va: nat, pa: nat, perm: bv8)
    requires Inv(m) && IsRoot(m, r)
    ensures var (m', code) := MapPage(m, r, va, pa, perm);
      && Inv(m')
      && (forall x | x in m.roles :: x in m'.roles && m'.roles[x] == m.roles[x])
      && (code == Rewrite <==> Lookup(m, r, va).Some?)
      && (code == Panic <==> Missing(m, r, va) > |m.pool|)
      && (code == Panic ==> m'.pool == [])
      && (code == Success ==> |m'.pool| == |m.pool| - Missing(m, r, va))
  {
    WalkKeeps(m, r, va, perm);
    WalkLookup(m, r, va, perm, r, va);
    var (m1, d) := Walk(m, r, va, perm);
    if d.Dir? {
      DirRole(m1, r, va);
      FlagsPresent(perm);
      SetLeafLookup(m1, d.value, P2X(va), Leaf(pa, perm), r, va);
    }
  }

  /** Two roots reach the same third-level table. */
  predicate Shared(m: Memory, r: nat, r': nat, va: nat)
    requires Inv(m) && IsRoot(m, r) && IsRoot(m, r')
  {
    FindDir(m, r, va).Some? && FindDir(m, r', va) == FindDir(m, r, va)
  }

  /** What mapping a page does to every translation under every root: on success it adds the pair to the
      roots that share the table, and in every case it changes nothing else. */
  lemma MapPageLookup(m: Memory, r: nat, va: nat, pa: nat, perm: bv8, r': nat, va': nat)
    requires Inv(m) && IsRoot(m, r) && IsRoot(m, r')
    ensures var (m', code) := MapPage(m, r, va, pa, perm);
      && Inv(m') && IsRoot(m', r) && IsRoot(m', r')
      && Lookup(m', r', va') ==
         if code == Success && SamePage(va, va') && Shared(m', r, r', va) then Some(Entry(pa, PG_PS | PG_P | PG_U | perm))
         else Lookup(m, r', va')
  {
    MapPageCode(m, r, va, pa, perm);
    WalkKeeps(m, r, va, perm);
    WalkLookup(m, r, va, perm, r', va');
    var (m1, d) := Walk(m, r, va, perm);
    var (m', code) := MapPage(m, r, va, pa, perm);
    if code == Success {
      DirRole(m1, r, va);
      FlagsPresent(perm);
      SetLeafLookup(m1, d.value, P2X(va), Leaf(pa, perm), r', va');
      SetLeafLookup(m1, d.value, P2X(va), Leaf(pa, perm), r', va);
      SetLeafLookup(m1, d.value, P2X(va), Leaf(pa, perm), r, va);
      if FindDir(m1, r', va') == Some(d.value) {
        DirUnique(m1, r, va, r', va');
      }
    }
  }

  /** Writing the entry of an address under one root: what it means for every address under every root. */
  lemma LeafLookup(m: Memory, r: nat, va: nat, e: Entry, r': nat, va': nat)
    requires Inv(m) && IsRoot(m, r) && IsRoot(m, r') && FindDir(m, r, va).Some?
    ensures FindDir(m, r, va).value in m.tables && m.roles[FindDir(m, r, va).value].Third?
    ensures var m' := SetLeaf(m, FindDir(m, r, va).value, P2X(va), e);
      && Inv(m') && IsRoot(m', r) && IsRoot(m', r') && FindDir(m', r, va) == FindDir(m, r, va)
      && (Shared(m', r, r', va) <==> Shared(m, r, r', va))
      && Lookup(m', r', va') ==
         if SamePage(va, va') && Shared(m, r, r', va) then (if Present(e) then Some(e) else None)
         else Lookup(m, r', va')
  {
    var d := FindDir(m, r, va).value;
    DirRole(m, r, va);
    SetLeafLookup(m, d, P2X(va), e, r', va');
    SetLeafLookup(m, d, P2X(va), e, r', va);
    SetLeafLookup(m, d, P2X(va), e, r, va);
    if FindDir(m, r', va') == Some(d) {
      DirUnique(m, r, va, r', va');
    }
    hide Lookup, Inv;
  }

  /** Under any other root, no translation of the user half changes. */
  lemma MapPageApart(m: Memory, r: nat, va: nat, pa: nat, perm: bv8, r': nat, va': nat)
    requires Inv(m) && IsRoot(m, r) && IsRoot(m, r') && r' != r && P4X(va') < USER_SLOTS
    ensures var m' := MapPage(m, r, va, pa, perm).0;
      Inv(m') && IsRoot(m', r') && Lookup(m', r', va') == Lookup(m, r', va')
  {
    MapPageLookup(m, r, va, pa, perm, r', va');
    var m' := MapPage(m, r, va, pa, perm).0;
    if SamePage(va, va') && FindDir(m', r, va).Some? && FindDir(m', r', va) == FindDir(m', r, va) {
      DirUnique(m', r, va, r', va);
    }
  }

  // ----- mapping a range

  function MapPages(m: Memory, r: nat, va: nat, pa: nat, end: nat, perm: bv8): (Memory, Code)
    requires Inv(m) && IsRoot(m, r)
    decreases end - pa
  {
    if pa < end && pa + PAGE_SIZE <= end then
      MapPageCode(m, r, va, pa, perm);
      var (m1, code) := MapPage(m, r, va, pa, perm);
      if code != Success then (m1, code)
      else MapPages(m1, r, va + PAGE_SIZE, pa + PAGE_SIZE, end, perm)
    else (m, Success)
  }

  function Pages(pa: nat, end: nat): nat {
    if pa < end then (end - pa) / PAGE_SIZE else 0
  }

  /** How many pages are mapped before the loop ends or something stops it. */
  function Done(m: Memory, r: nat, va: nat, pa: nat, end: nat, perm: bv8): (n: nat)
    requires Inv(m) && IsRoot(m, r)
    ensures n <= Pages(pa, end)
    decreases end - pa
  {
    if pa < end && pa + PAGE_SIZE <= end then
      MapPageCode(m, r, va, pa, perm);
      var (m1, code) := MapPage(m, r, va, pa, perm);
      if code != Success then 0 else 1 + Done(m1, r, va + PAGE_SIZE, pa + PAGE_SIZE, end, perm)
    else 0
  }

  /** How many pages an address lies above another, around the 48-bit space. */
  function Offset(va: nat, va': nat): nat {
    (va' / PAGE_SIZE - va / PAGE_SIZE) % 0x800_0000
  }

  lemma ModPrevious(a: int)
    ensures (a - 1) % 0x800_0000 == if a % 0x800_0000 == 0 then 0x7FF_FFFF else a % 0x800_0000 - 1
  {
  }

  lemma ModDifference(a: int, b: int)
    ensures (a - b) % 0x800_0000 == 0 <==> a % 0x800_0000 == b % 0x800_0000
  {
    var q, s := a / 0x800_0000, b / 0x800_0000;
    assert a - b == (q - s) * 0x800_0000 + (a % 0x800_0000 - b % 0x800_0000);
  }

  lemma OffsetStep(va: nat, va': nat)
    ensures SamePage(va, va') <==> Offset(va, va') == 0
    ensures Offset(va + PAGE_SIZE, va') == if Offset(va, va') == 0 then 0x7FF_FFFF else Offset(va, va') - 1
    ensures Offset(va, va') < 0x800_0000
  {
    SamePageIff(va, va');
    var a, b := va' / PAGE_SIZE, va / PAGE_SIZE;
    assert (va + PAGE_SIZE) / PAGE_SIZE == b + 1;
    ModPrevious(a - b);
    ModDifference(a, b);
    assert a - (b + 1) == a - b - 1;
    hide SamePage;
  }

  /** Page `k` above an address. */
  function PageAt(a: nat, k: nat): nat {
    a + k * 0x20_0000
  }

  lemma PageAtIs(a: nat, k: nat)
    ensures PageAt(a, k) == a + k * PAGE_SIZE
  {
  }

  lemma PageAtStep(a: nat, k: nat)
    requires k > 0
    ensures PageAt(a, k) == PageAt(a + PAGE_SIZE, k - 1)
    ensures PageAt(a, 0) == a
  {
  }

  lemma PagesStep(pa: nat, end: nat)
    requires pa < end && pa + PAGE_SIZE <= end
    ensures Pages(pa, end) == Pages(pa + PAGE_SIZE, end) + 1
    ensures end <= pa + 0x1_0000_0000_0000 ==> Pages(pa, end) <= 0x800_0000
  {
  }

  lemma MapPagesStop(m: Memory, r: nat, va: nat, pa: nat, end: nat, perm: bv8)
    requires Inv(m) && IsRoot(m, r)
    requires pa < end && pa + PAGE_SIZE <= end ==> MapPage(m, r, va, pa, perm).1 != Success
    ensures Done(m, r, va, pa, end, perm) == 0
    ensures MapPages(m, r, va, pa, end, perm) ==
      if pa < end && pa + PAGE_SIZE <= end then MapPage(m, r, va, pa, perm) else (m, Success)
    ensures pa < end && pa + PAGE_SIZE <= end <==> Pages(pa, end) > 0
    ensures PageAt(va, 0) == va
  {
    hide MapPage, Inv;
  }

  lemma MapPagesUnfold(m: Memory, r: nat, va: nat, pa: nat, end: nat, perm: bv8)
    requires Inv(m) && IsRoot(m, r) && pa < end && pa + PAGE_SIZE <= end && MapPage(m, r, va, pa, perm).1 == Success
    ensures var m1 := MapPage(m, r, va, pa, perm).0;
      && Inv(m1) && IsRoot(m1, r)
      && MapPages(m, r, va, pa, end, perm) == MapPages(m1, r, va + PAGE_SIZE, pa + PAGE_SIZE, end, perm)
      && Done(m, r, va, pa, end, perm) == 1 + Done(m1, r, va + PAGE_SIZE, pa + PAGE_SIZE, end, perm)
      && Done(m, r, va, pa, end, perm) <= Pages(pa, end)
  {
    MapPageCode(m, r, va, pa, perm);
    hide MapPage, Inv;
  }

  lemma {:induction false} RangeLookup(m: Memory, r: nat, va: nat, pa: nat, end: nat, perm: bv8, va': nat)
    requires Inv(m) && IsRoot(m, r) && end <= pa + 0x1_0000_0000_0000
    ensures var m' := MapPages(m, r, va, pa, end, perm).0;
      && Inv(m') && IsRoot(m', r)
      && var k := Offset(va, va');
      && Lookup(m', r, va') ==
         if k < Done(m, r, va, pa, end, perm) then Some(Entry(PageAt(pa, k), PG_PS | PG_P | PG_U | perm))
         else Lookup(m, r, va')
    decreases end - pa
  {
    hide *;
    if pa < end && pa + PAGE_SIZE <= end && MapPage(m, r, va, pa, perm).1 == Success {
      MapPageLookup(m, r, va, pa, perm, r, va');
      SharedWithSelf(m, r, va, pa, perm);
      OffsetStep(va, va');
      PagesStep(pa, end);
      var k := Offset(va, va');
      PageAtStep(pa, if k == 0 then 1 else k);
      MapPagesUnfold(m, r, va, pa, end, perm);
      RangeLookup(MapPage(m, r, va, pa, perm).0, r, va + PAGE_SIZE, pa + PAGE_SIZE, end, perm, va');
    } else {
      MapPageLookup(m, r, va, pa, perm, r, va');
      MapPagesStop(m, r, va, pa, end, perm);
    }
  }

  /** Mapping a range of at most 2^48 bytes changes a root's translations exactly so: page `k` of the range
      goes to physical page `k`, for the pages done, and every other address keeps its translation. */
  lemma MapPagesLookup(m: Memory, r: nat, va: nat, pa: nat, end: nat, perm: bv8, va': nat)
    requires Inv(m) && IsRoot(m, r) && end <= pa + 0x1_0000_0000_0000
    ensures var m' := MapPages(m, r, va, pa, end, perm).0;
      && Inv(m') && IsRoot(m', r)
      && var k := Offset(va, va');
      && Lookup(m', r, va') ==
         if k < Done(m, r, va, pa, end, perm) then Some(Entry(pa + k * PAGE_SIZE, PG_PS | PG_P | PG_U | perm))
         else Lookup(m, r, va')
  {
    hide *;
    RangeLookup(m, r, va, pa, end, perm, va');
    PageAtIs(pa, Offset(va, va'));
  }

  lemma SharedWithSelf(m: Memory, r: nat, va: nat, pa: nat, perm: bv8)
    requires Inv(m) && IsRoot(m, r) && MapPage(m, r, va, pa, perm).1 == Success
    ensures var m' := MapPage(m, r, va, pa, perm).0;
      Inv(m') && IsRoot(m', r) && Shared(m', r, r, va)
  {
    MapPageCode(m, r, va, pa, perm);
    WalkKeeps(m, r, va, perm);
    var (m1, d) := Walk(m, r, va, perm);
    DirRole(m1, r, va);
    FlagsPresent(perm);
    SetLeafLookup(m1, d.value, P2X(va), Leaf(pa, perm), r, va);
  }

  /** The result code: success means that the whole range was unmapped and now is mapped; a refusal or a stop of
      the kernel comes at the page reached, which was mapped before, or for which the pool had no table left. */
  lemma {:induction false} MapPagesCode(m: Memory, r: nat, va: nat, pa: nat, end: nat, perm: bv8)
    requires Inv(m) && IsRoot(m, r) && end <= pa + 0x1_0000_0000_0000
    ensures var (m', code) := MapPages(m, r, va, pa, end, perm);
      var n := Done(m, r, va, pa, end, perm);
      && (code == Success <==> n == Pages(pa, end))
      && (code == Rewrite ==> Lookup(m, r, PageAt(va, n)).Some?)
      && (code == Panic ==> m'.pool == [] && Lookup(m, r, PageAt(va, n)).None?)
      && (forall k: nat | k < n :: Lookup(m, r, PageAt(va, k)).None?)
    decreases end - pa
  {
    hide *;
    MapPageCode(m, r, va, pa, perm);
    if pa < end && pa + PAGE_SIZE <= end && MapPage(m, r, va, pa, perm).1 == Success {
      var m1 := MapPage(m, r, va, pa, perm).0;
      PagesStep(pa, end);
      MapPagesUnfold(m, r, va, pa, end, perm);
      MapPagesCode(m1, r, va + PAGE_SIZE, pa + PAGE_SIZE, end, perm);
      var n := Done(m, r, va, pa, end, perm);
      PageAtStep(va, 1);
      forall k: nat | 1 <= k <= n && k < Pages(pa, end)
        ensures Lookup(m, r, PageAt(va, k)) == Lookup(m1, r, PageAt(va + PAGE_SIZE, k - 1))
      {
        MapPageLookup(m, r, va, pa, perm, r, PageAt(va, k));
        FarPage(va, k);
        PageAtStep(va, k);
      }
    } else {
      MapPagesStop(m, r, va, pa, end, perm);
    }
  }

  lemma FarPage(va: nat, k: nat)
    requires 1 <= k < 0x800_0000
    ensures !SamePage(va, PageAt(va, k))
  {
    SamePageIff(va, PageAt(va, k));
    var b := va / PAGE_SIZE;
    assert (PageAt(va, k)) / PAGE_SIZE == b + k;
    ModDifference(b + k, b);
    hide SamePage;
  }

  lemma {:induction false} MapPagesKeeps(m: Memory, r: nat, va: nat, pa: nat, end: nat, perm: bv8, r': nat)
    requires Inv(m) && IsRoot(m, r) && IsRoot(m, r')
    ensures var m' := MapPages(m, r, va, pa, end, perm).0;
      Inv(m') && IsRoot(m', r')
    decreases end - pa
  {
    if pa < end && pa + PAGE_SIZE <= end {
      MapPageCode(m, r, va, pa, perm);
      MapPageLookup(m, r, va, pa, perm, r', va);
      var (m1, code) := MapPage(m, r, va, pa, perm);
      if code == Success {
        MapPagesKeeps(m1, r, va + PAGE_SIZE, pa + PAGE_SIZE, end, perm, r');
      }
    }
  }

  lemma {:induction false} MapPagesApart(m: Memory, r: nat, va: nat, pa: nat, end: nat, perm: bv8, r': nat, va': nat)
    requires Inv(m) && IsRoot(m, r) && IsRoot(m, r') && r' != r && P4X(va') < USER_SLOTS
    ensures var m' := MapPages(m, r, va, pa, end, perm).0;
      Inv(m') && IsRoot(m', r') && Lookup(m', r', va') == Lookup(m, r', va')
    decreases end - pa
  {
    if pa < end && pa + PAGE_SIZE <= end {
      MapPageCode(m, r, va, pa, perm);
      MapPageApart(m, r, va, pa, perm, r', va');
      var (m1, code) := MapPage(m, r, va, pa, perm);
      if code == Success {
        MapPagesApart(m1, r, va + PAGE_SIZE, pa + PAGE_SIZE, end, perm, r', va');
      }
    }
  }
}
