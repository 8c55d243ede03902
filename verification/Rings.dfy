/** Intrusive doubly linked rings: a head and the links of the items, each holding the addresses of the next
    and the previous one. */
module Rings {
  import opened Prelude

  datatype Links = Links(next: nat, prev: nat)

  type Memory = map<nat, Links>

  predicate Joined(m: Memory, a: nat, b: nat) {
    a in m && b in m && m[a].next == b && m[b].prev == a
  }

  /** Place `i` of a chain is joined to the place after it. */
  predicate JoinedAt(m: Memory, c: seq<nat>, i: nat)
    requires i + 1 < |c|
  {
    Joined(m, c[i], c[i + 1])
  }

  /** Round the ring, from the head back to it. */
  function Round(h: nat, s: seq<nat>): seq<nat> {
    [h] + s + [h]
  }

  /** Under head `h` the links form the ring of the items `s`. */
  ghost predicate Ring(m: Memory, h: nat, s: seq<nat>) {
    && Distinct([h] + s)
    && forall i | 0 <= i <= |s| :: JoinedAt(m, Round(h, s), i)
  }

  ghost predicate Alone(m: Memory, e: nat) {
    e in m && m[e] == Links(e, e)
  }

  function Nodes(h: nat, s: seq<nat>): set<nat> {
    {h} + set i | 0 <= i < |s| :: s[i]
  }

  /** A ring depends on its own links only. */
  lemma RingFrame(m: Memory, m': Memory, h: nat, s: seq<nat>)
    requires Ring(m, h, s)
    requires forall x | x in Nodes(h, s) && x in m :: x in m' && m'[x] == m[x]
    ensures Ring(m', h, s)
  {
    var c := Round(h, s);
    forall i | 0 <= i <= |s| ensures JoinedAt(m', c, i) {
      assert JoinedAt(m, c, i);
      assert c[i] in Nodes(h, s) && c[i + 1] in Nodes(h, s);
    }
  }

  lemma RingEmpty(m: Memory, h: nat)
    ensures Ring(m, h, []) <==> Alone(m, h)
  {
    assert Round(h, []) == [h, h];
    if Ring(m, h, []) {
      assert JoinedAt(m, Round(h, []), 0);
    }
  }

  lemma RingEnds(m: Memory, h: nat, s: seq<nat>)
    requires Ring(m, h, s)
    ensures h in m && m[h].next == Round(h, s)[1] && m[h].prev == Round(h, s)[|s|]
    ensures forall i | 0 <= i < |s| :: s[i] in m
    ensures forall i | 0 <= i < |s| :: m[s[i]].next == Round(h, s)[i + 2]
    ensures h !in s && (s != [] ==> m[h].next == s[0] && m[h].prev == s[|s| - 1])
  {
    var c := Round(h, s);
    assert JoinedAt(m, c, 0) && JoinedAt(m, c, |s|);
    forall i | 0 <= i < |s| ensures s[i] in m && m[s[i]].next == c[i + 2] {
      assert JoinedAt(m, c, i + 1) && c[i + 1] == s[i];
    }
    assert forall i | 0 <= i < |s| :: ([h] + s)[i + 1] == s[i];
  }

  // ----- the primitives

  function SetNext(m: Memory, a: nat, b: nat): Memory
    requires a in m
  {
    m[a := m[a].(next := b)]
  }

  function SetPrev(m: Memory, a: nat, b: nat): Memory
    requires a in m
  {
    m[a := m[a].(prev := b)]
  }

  /** list_remove_init. */
  function RemoveInit(m: Memory, e: nat): Memory
    requires e in m && m[e].prev in m && m[e].next in m
  {
    var p, n := m[e].prev, m[e].next;
    SetPrev(SetNext(m, p, n), n, p)[e := Links(e, e)]
  }

  /** util_list_add. */
  function AddBetween(m: Memory, e: nat, p: nat, n: nat): Memory
    requires e in m && p in m && n in m
  {
    SetPrev(SetNext(m, p, e), n, e)[e := Links(n, p)]
  }

  /** Taking the first item out leaves the rest in the ring and the item alone. */
  lemma RemoveFirst(m: Memory, h: nat, s: seq<nat>)
    requires Ring(m, h, s) && s != []
    ensures s[0] in m && m[s[0]].prev in m && m[s[0]].next in m
    ensures var m' := RemoveInit(m, s[0]);
      && Ring(m', h, s[1..]) && Alone(m', s[0]) && m'.Keys == m.Keys
      && forall x | x in m && x !in Nodes(h, s) :: m'[x] == m[x]
  {
    var e, c := s[0], Round(h, s);
    assert JoinedAt(m, c, 0) && JoinedAt(m, c, 1);
    var n := m[e].next;
    assert c[0] == h && c[1] == e && c[2] == n;
    var m' := RemoveInit(m, e);
    var c' := Round(h, s[1..]);
    assert forall i | 1 <= i < |c'| :: c'[i] == c[i + 1];
    assert n in Nodes(h, s);
    RestDistinct(h, s);
    forall i | 0 <= i <= |s| - 1 ensures JoinedAt(m', c', i) {
      if i > 0 {
        assert JoinedAt(m, c, i + 1);
        RoundInner(h, s, i + 1);
      }
    }
  }

  lemma RestDistinct(h: nat, s: seq<nat>)
    requires Distinct([h] + s) && s != []
    ensures Distinct([h] + s[1..]) && s[0] !in [h] + s[1..] && Distinct(s) && h !in s
  {
    var r := [h] + s;
    assert forall i | 0 <= i < |s| :: r[i + 1] == s[i];
    var q := [h] + s[1..];
    assert forall i | 1 <= i < |q| :: q[i] == r[i + 1];
    assert q[0] == r[0];
  }

  /** Places inside the round: not the head, and not the first item unless it is that place. */
  lemma RoundInner(h: nat, s: seq<nat>, i: nat)
    requires Distinct([h] + s) && 1 <= i <= |s|
    ensures Round(h, s)[i] == s[i - 1] && s[i - 1] != h
    ensures i > 1 ==> s[i - 1] != s[0]
    ensures i < |s| ==> Round(h, s)[i + 1] == s[i] && s[i] != s[0] && s[i] != h
    ensures i == |s| ==> Round(h, s)[i + 1] == h
  {
    var r := [h] + s;
    assert r[0] == h && r[1] == s[0] && r[i] == s[i - 1];
    if i < |s| {
      assert r[i + 1] == s[i];
    }
  }

  /** list_add_tail. */
  function AddTail(m: Memory, e: nat, h: nat): Memory
    requires e in m && h in m && m[h].prev in m
  {
    AddBetween(m, e, m[h].prev, h)
  }

  lemma AddLast(m: Memory, h: nat, s: seq<nat>, e: nat)
    requires Ring(m, h, s) && e in m && e !in Nodes(h, s)
    ensures h in m && m[h].prev in m
    ensures var m' := AddTail(m, e, h);
      && Ring(m', h, s + [e]) && m'.Keys == m.Keys
      && forall x | x in m && x !in Nodes(h, s) && x != e :: m'[x] == m[x]
  {
    var c, c' := Round(h, s), Round(h, s + [e]);
    RingEnds(m, h, s);
    assert JoinedAt(m, c, |s|);
    var p := m[h].prev;
    assert c[|s|] == p && p in Nodes(h, s);
    var m' := AddTail(m, e, h);
    assert forall i | 0 <= i <= |s| :: c'[i] == c[i];
    assert c'[|s| + 1] == e && c'[|s| + 2] == h;
    EndDistinct(h, s, e);
    forall i | 0 <= i <= |s| + 1 ensures JoinedAt(m', c', i) {
      if i < |s| {
        assert JoinedAt(m, c, i);
        assert c[i] in Nodes(h, s) && c[i + 1] in Nodes(h, s);
        LastOnly(h, s, i);
      }
    }
  }

  lemma EndDistinct(h: nat, s: seq<nat>, e: nat)
    requires Distinct([h] + s) && e !in Nodes(h, s)
    ensures Distinct([h] + (s + [e]))
  {
    var r, q := [h] + s, [h] + (s + [e]);
    assert forall i | 0 <= i < |r| :: q[i] == r[i] && r[i] in Nodes(h, s);
    assert q[|r|] == e;
  }

  lemma LastOnly(h: nat, s: seq<nat>, i: nat)
    requires Distinct([h] + s) && i < |s|
    ensures Round(h, s)[i] != Round(h, s)[|s|] && Round(h, s)[i + 1] != h
  {
    var r := [h] + s;
    assert r[0] == h && Round(h, s)[i] == r[i] && Round(h, s)[|s|] == r[|s|] && Round(h, s)[i + 1] == r[i + 1];
  }

  // ----- adding a link that is in the ring already

  /** Added at the tail a second time, an item points back to itself, and under the head there is no ring any
      more, of whatever items. */
  lemma AddTwice(m: Memory, h: nat, s: seq<nat>, e: nat)
    requires Ring(m, h, s) && e in m && e !in Nodes(h, s)
    ensures h in m && m[h].prev in m
    ensures var m1 := AddTail(m, e, h);
      && m1[h].prev == e
      && var m2 := AddTail(m1, e, h);
         && m2[e] == Links(h, e) && m2[h] == m1[h] && (forall x | x in m && x != e :: m2[x] == m1[x])
         && (forall r :: !Ring(m2, h, r))
  {
    AddLast(m, h, s, e);
    var m1 := AddTail(m, e, h);
    RingEnds(m1, h, s + [e]);
    var m2 := AddTail(m1, e, h);
    forall r ensures !Ring(m2, h, r) {
      if Ring(m2, h, r) {
        BackOutside(m2, h, r, e);
        assert false;
      }
    }
  }

  /** In a ring the item before the head does not point back to itself. */
  lemma BackOutside(m: Memory, h: nat, r: seq<nat>, e: nat)
    requires Ring(m, h, r) && h in m && e in m && m[h].prev == e && e != h
    ensures m[e].prev != e
  {
    RingEnds(m, h, r);
    var c := Round(h, r);
    assert r != [] && e == r[|r| - 1] && JoinedAt(m, c, |r| - 1);
    assert c[|r| - 1] == ([h] + r)[|r| - 1] && e == ([h] + r)[|r|];
  }

  /** From an empty list the item then never goes: taking out the front leaves the head on it, and again changes
      nothing. */
  lemma TwiceNeverLeaves(m: Memory, h: nat, e: nat)
    requires Ring(m, h, []) && e in m && e != h
    ensures h in m && m[h].prev in m
    ensures var m1 := AddTail(m, e, h);
      && m1[h].prev in m1
      && var m2 := AddTail(m1, e, h);
         && m2[h].next == e && m2[e].prev in m2 && m2[e].next in m2
         && var m3 := RemoveInit(m2, e);
            m3[h].next == e && m3[e] == Links(e, e) && RemoveInit(m3, e) == m3
  {
    RingEmpty(m, h);
  }

  /** What the second addition leaves where items stand before: all joined but the last of them and `e`, which
      points back to itself. */
  ghost predicate Hooked(m: Memory, h: nat, s: seq<nat>, e: nat) {
    && s != [] && Distinct([h] + s) && e !in [h] + s
    && (forall i | 0 <= i < |s| :: JoinedAt(m, [h] + s, i))
    && h in m && s[|s| - 1] in m && m[s[|s| - 1]].next == e && e in m && m[e] == Links(h, e) && m[h].prev == e
  }

  lemma TwiceHooks(m: Memory, h: nat, s: seq<nat>, e: nat)
    requires Ring(m, h, s) && e in m && e !in Nodes(h, s) && s != []
    ensures h in m && m[h].prev in m
    ensures var m1 := AddTail(m, e, h);
      m1[h].prev in m1 && Hooked(AddTail(m1, e, h), h, s, e)
  {
    AddLast(m, h, s, e);
    AddTwice(m, h, s, e);
    var m1 := AddTail(m, e, h);
    var m2, c, d := AddTail(m1, e, h), Round(h, s + [e]), [h] + s;
    RingEnds(m1, h, s + [e]);
    forall i | 0 <= i < |s| ensures JoinedAt(m2, d, i) {
      assert JoinedAt(m1, c, i) && c[i] == d[i] && c[i + 1] == d[i + 1];
      assert d[i] in Nodes(h, s) && d[i + 1] in Nodes(h, s);
    }
    assert (s + [e])[|s| - 1] == s[|s| - 1] && s[|s| - 1] in Nodes(h, s);
    assert forall x | x in d :: x in Nodes(h, s);
  }

  /** Taking out the front keeps it so, until the last item before `e` goes: then there is a ring of `e` alone. */
  lemma HookedFront(m: Memory, h: nat, s: seq<nat>, e: nat)
    requires Hooked(m, h, s, e)
    ensures s[0] in m && m[s[0]].prev in m && m[s[0]].next in m
    ensures var m' := RemoveInit(m, s[0]);
      if |s| == 1 then Ring(m', h, [e]) else Hooked(m', h, s[1..], e)
  {
    var c := [h] + s;
    assert JoinedAt(m, c, 0) && c[0] == h && c[1] == s[0];
    if |s| == 1 {
      var m', r := RemoveInit(m, s[0]), Round(h, [e]);
      assert r == [h, e, h];
      assert JoinedAt(m', r, 0) && JoinedAt(m', r, 1);
    } else {
      assert JoinedAt(m, c, 1);
      HookedOn(m, h, s, e);
    }
  }

  lemma HookedOn(m: Memory, h: nat, s: seq<nat>, e: nat)
    requires Hooked(m, h, s, e) && |s| > 1 && s[0] in m && m[s[0]].prev == h && h in m && m[s[0]].next in m
    ensures Hooked(RemoveInit(m, s[0]), h, s[1..], e)
  {
    var c, d := [h] + s, [h] + s[1..];
    RestDistinct(h, s);
    assert JoinedAt(m, c, 0) && JoinedAt(m, c, 1) && c[1] == s[0] && c[2] == s[1];
    var m' := RemoveInit(m, s[0]);
    assert d[0] == h && forall i | 1 <= i < |d| :: d[i] == c[i + 1];
    forall i | 0 <= i < |s| - 1 ensures JoinedAt(m', d, i) {
      if i > 0 {
        assert JoinedAt(m, c, i + 1);
        assert d[i] == c[i + 1] && d[i + 1] == c[i + 2] && d[i] in d && d[i + 1] in d;
        assert d[i] != h && d[i + 1] != d[1];
      }
    }
    assert s[|s| - 1] == d[|s| - 1] && d[|s| - 1] in d;
    assert forall x | x in d :: x in c;
  }

  // ----- swapping heads

  /** list_replace, one assignment after the other. */
  function Replace(m: Memory, old': nat, new': nat): Memory
    requires old' in m && new' in m && m[old'].next in m && m[old'].prev in m
  {
    var m1 := SetNext(m, new', m[old'].next);
    var m2 := SetPrev(m1, m1[new'].next, new');
    var m3 := SetPrev(m2, new', m2[old'].prev);
    SetNext(m3, m3[new'].prev, new')
  }

  /** list_swap, where both heads are in memory with their neighbours. */
  function Swap(m: Memory, e1: nat, e2: nat): Memory
    requires e1 in m && e2 in m && m[e2].prev in m && m[e2].next in m && m[e1].next in m && m[e1].prev in m
  {
    var pos := m[e2].prev;
    var m1 := RemoveInit(m, e2);
    var m2 := Replace(m1, e1, e2);
    var at := if pos == e1 then e2 else pos;
    AddBetween(m2, e1, at, m2[at].next)
  }

  /** The links of the items of `a`, with the head `t` in place of the one they had. */
  ghost predicate Headed(m: Memory, m': Memory, t: nat, a: seq<nat>) {
    && t in m' && m'[t] == (if a == [] then Links(t, t) else Links(a[0], a[|a| - 1]))
    && forall i | 0 <= i < |a| ::
         && a[i] in m && a[i] in m'
         && m'[a[i]] == Links(if i == |a| - 1 then t else m[a[i]].next, if i == 0 then t else m[a[i]].prev)
  }

  lemma HeadedRing(m: Memory, m': Memory, h: nat, t: nat, a: seq<nat>)
    requires Ring(m, h, a) && t !in a && Headed(m, m', t, a)
    ensures Ring(m', t, a)
  {
    var c, c' := Round(h, a), Round(t, a);
    if a != [] {
      RestDistinct(h, a);
    }
    FrontDistinct(a, t);
    forall i | 0 <= i <= |a| ensures JoinedAt(m', c', i) {
      assert JoinedAt(m, c, i);
      if 0 < i < |a| {
        assert c[i] == c'[i] == a[i - 1] && c[i + 1] == c'[i + 1] == a[i];
      }
    }
  }

  /** What list_swap writes for two heads with neighbours of their own, or none in the case of the first. */
  lemma SwapWrites(m: Memory, h: nat, t: nat)
    requires h in m && t in m && m[t].prev in m && m[t].next in m && m[h].next in m && m[h].prev in m
    requires h != t && m[t].prev !in {h, t} && m[t].next !in {h, t}
    requires m[h] == Links(h, h) || (m[h].next !in {h, t, m[t].next, m[t].prev} && m[h].prev !in {h, t, m[t].next, m[t].prev})
    ensures var m' := Swap(m, h, t);
      && m'.Keys == m.Keys && m'[h] == m[t] && m'[t] == (if m[h] == Links(h, h) then Links(t, t) else m[h])
      && forall x | x in m && x != h && x != t ::
           m'[x] == Links(if x == m[h].prev then t else if x == m[t].prev then h else m[x].next,
                          if x == m[h].next then t else if x == m[t].next then h else m[x].prev)
  {
  }

  /** So each head takes over the items of the other, if the second ring is not empty. */
  lemma SwapLinks(m: Memory, h: nat, t: nat, a: seq<nat>, b: seq<nat>)
    requires Ring(m, h, a) && Ring(m, t, b) && Nodes(h, a) !! Nodes(t, b) && b != []
    ensures h in m && t in m && m[t].prev in m && m[t].next in m && m[h].next in m && m[h].prev in m
    ensures var m' := Swap(m, h, t);
      && Headed(m, m', h, b) && Headed(m, m', t, a) && m'.Keys == m.Keys
      && forall x | x in m && x !in Nodes(h, a) && x !in Nodes(t, b) :: m'[x] == m[x]
  {
    RingEnds(m, h, a);
    RingEnds(m, t, b);
    RestDistinct(t, b);
    if a != [] {
      RestDistinct(h, a);
    }
    assert forall i | 0 <= i < |a| :: a[i] in Nodes(h, a);
    assert forall i | 0 <= i < |b| :: b[i] in Nodes(t, b);
    assert b[0] in Nodes(t, b) && b[|b| - 1] in Nodes(t, b) && t in Nodes(t, b) && h in Nodes(h, a);
    assert a != [] ==> a[0] in Nodes(h, a) && a[|a| - 1] in Nodes(h, a);
    SwapWrites(m, h, t);
    hide Swap, Ring, Nodes;
  }

  /** intrusive_list::swap: the heads exchange their rings exactly if the second ring is not empty. */
  lemma SwapExact(m: Memory, h: nat, t: nat, a: seq<nat>, b: seq<nat>)
    requires Ring(m, h, a) && Ring(m, t, b) && Nodes(h, a) !! Nodes(t, b)
    ensures h in m && t in m && m[t].prev in m && m[t].next in m && m[h].next in m && m[h].prev in m
    ensures Ring(Swap(m, h, t), h, b) && Ring(Swap(m, h, t), t, a) <==> b != []
  {
    RingEnds(m, h, a);
    RingEnds(m, t, b);
    assert h in Nodes(h, a) && t in Nodes(t, b);
    assert a != [] ==> a[0] in Nodes(h, a) && a[|a| - 1] in Nodes(h, a);
    if b != [] {
      SwapLinks(m, h, t, a, b);
      assert forall i | 0 <= i < |b| :: b[i] in Nodes(t, b);
      assert forall i | 0 <= i < |a| :: a[i] in Nodes(h, a);
      hide Swap;
      HeadedRing(m, Swap(m, h, t), h, t, a);
      HeadedRing(m, Swap(m, h, t), t, h, b);
    } else {
      var m' := Swap(m, h, t);
      assert m'[t].next == h;
      if Ring(m', t, a) {
        RingEnds(m', t, a);
        assert false;
      }
    }
  }

  /** Swapping an empty head with the head of a ring gives it the ring. */
  lemma SwapIn(m: Memory, h: nat, t: nat, s: seq<nat>)
    requires Ring(m, h, []) && Ring(m, t, s) && h !in Nodes(t, s) && s != []
    ensures h in m && t in m && m[t].prev in m && m[t].next in m && m[h].next in m && m[h].prev in m
    ensures var m' := Swap(m, h, t);
      && Ring(m', h, s) && m'.Keys == m.Keys
      && forall x | x in m && x != h && x !in Nodes(t, s) :: m'[x] == m[x]
  {
    SwapLinks(m, h, t, [], s);
    assert forall i | 0 <= i < |s| :: s[i] in Nodes(t, s);
    HeadedRing(m, Swap(m, h, t), t, h, s);
    hide Swap, Ring, Headed;
  }

  /** Two neighbours of one ring change places. */
  lemma SwapNeighbours(m: Memory, h: nat, x: seq<nat>, a: nat, b: nat, y: seq<nat>)
    requires Ring(m, h, x + [a, b] + y)
    ensures a in m && b in m && m[b].prev in m && m[b].next in m && m[a].next in m && m[a].prev in m
    ensures Ring(Swap(m, a, b), h, x + [b, a] + y)
  {
    var s, s', n := x + [a, b] + y, x + [b, a] + y, |x|;
    var c, c', r, r' := Round(h, s), Round(h, s'), [h] + s, [h] + s';
    assert JoinedAt(m, c, n) && JoinedAt(m, c, n + 1) && JoinedAt(m, c, n + 2);
    assert c[n + 1] == r[n + 1] == a && c[n + 2] == r[n + 2] == b;
    assert forall i | 0 <= i < |r| :: r[i] == c[i];
    assert forall i | 0 <= i < |c| && i != n + 1 && i != n + 2 :: c'[i] == c[i];
    assert forall i | 0 <= i < |r| :: r'[i] == if i == n + 1 then b else if i == n + 2 then a else r[i];
    var m' := Swap(m, a, b);
    forall i | 0 <= i <= |s| ensures JoinedAt(m', c', i) {
      assert JoinedAt(m, c, i);
    }
  }

  /** With both rings empty the swap leaves the other head in the ring. */
  lemma SwapBothEmpty(m: Memory, h: nat, t: nat)
    requires Ring(m, h, []) && Ring(m, t, []) && h != t
    ensures h in m && t in m && m[t].prev in m && m[t].next in m && m[h].next in m && m[h].prev in m
    ensures Ring(Swap(m, h, t), h, [t]) && !Ring(Swap(m, h, t), h, [])
  {
    RingEmpty(m, h);
    RingEmpty(m, t);
    var m' := Swap(m, h, t);
    assert m'[h] == Links(t, t) && m'[t] == Links(h, h);
    assert Round(h, [t]) == [h, t, h];
    RingEmpty(m', h);
  }
}
