/** Merging two sorted rings into the first, by moving links. */
module RingMerge {
  import opened Rings
  import opened Prelude

  type Keys = map<nat, int>

  predicate Keyed(k: Keys, s: seq<nat>) {
    forall i | 0 <= i < |s| :: s[i] in k
  }

  predicate Sorted(k: Keys, s: seq<nat>)
    requires Keyed(k, s)
  {
    forall i, j | 0 <= i < j < |s| :: k[s[i]] <= k[s[j]]
  }

  /** Items in order, one of the second list first where keys tie. */
  function Merge(k: Keys, a: seq<nat>, b: seq<nat>): (r: seq<nat>)
    requires Keyed(k, a) && Keyed(k, b)
    ensures |r| == |a| + |b|
    decreases |a| + |b|
  {
    if a == [] then b
    else if b == [] then a
    else if k[a[0]] < k[b[0]] then [a[0]] + Merge(k, a[1..], b)
    else [b[0]] + Merge(k, a, b[1..])
  }

  lemma {:induction false} MergePermutes(k: Keys, a: seq<nat>, b: seq<nat>)
    requires Keyed(k, a) && Keyed(k, b)
    ensures multiset(Merge(k, a, b)) == multiset(a) + multiset(b)
    decreases |a| + |b|
  {
    if a != [] && b != [] {
      if k[a[0]] < k[b[0]] {
        MergePermutes(k, a[1..], b);
        assert a == [a[0]] + a[1..];
      } else {
        MergePermutes(k, a, b[1..]);
        assert b == [b[0]] + b[1..];
      }
    }
  }

  lemma MergeMembers(k: Keys, a: seq<nat>, b: seq<nat>)
    requires Keyed(k, a) && Keyed(k, b)
    ensures forall x :: x in Merge(k, a, b) <==> x in a || x in b
    ensures Keyed(k, Merge(k, a, b))
  {
    MergePermutes(k, a, b);
    var r := Merge(k, a, b);
    forall x ensures x in r <==> x in a || x in b {
      assert x in multiset(r) <==> x in multiset(a) || x in multiset(b);
    }
    forall i | 0 <= i < |r| ensures r[i] in k {
      assert r[i] in r;
    }
    hide Merge;
  }

  /** The items of one list keep their order: the merge without the other list's items is that list. */
  function Only(s: seq<nat>, a: seq<nat>): seq<nat> {
    if s == [] then [] else if s[0] in a then [s[0]] + Only(s[1..], a) else Only(s[1..], a)
  }

  lemma {:induction false} OnlyAll(s: seq<nat>, a: seq<nat>)
    ensures (forall x | x in s :: x in a) ==> Only(s, a) == s
    ensures (forall x | x in s :: x !in a) ==> Only(s, a) == []
  {
    if s != [] {
      OnlyAll(s[1..], a);
      assert s == [s[0]] + s[1..];
    }
  }

  /** Membership in `c` is all that matters; `a` and `b` are what is left of two lists. */
  lemma {:induction false} MergeStable(k: Keys, a: seq<nat>, b: seq<nat>, c: seq<nat>)
    requires Keyed(k, a) && Keyed(k, b)
    requires forall x | x in b :: x !in c
    requires forall x | x in a :: x in c
    ensures Only(Merge(k, a, b), c) == a
    decreases |a| + |b|
  {
    OnlyAll(a, c);
    OnlyAll(b, c);
    if a != [] && b != [] {
      assert a == [a[0]] + a[1..] && b == [b[0]] + b[1..];
      if k[a[0]] < k[b[0]] {
        MergeStable(k, a[1..], b, c);
      } else {
        MergeStable(k, a, b[1..], c);
      }
    }
  }

  lemma {:induction false} MergeStableSecond(k: Keys, a: seq<nat>, b: seq<nat>, c: seq<nat>)
    requires Keyed(k, a) && Keyed(k, b)
    requires forall x | x in a :: x !in c
    requires forall x | x in b :: x in c
    ensures Only(Merge(k, a, b), c) == b
    decreases |a| + |b|
  {
    OnlyAll(a, c);
    OnlyAll(b, c);
    if a != [] && b != [] {
      assert a == [a[0]] + a[1..] && b == [b[0]] + b[1..];
      if k[a[0]] < k[b[0]] {
        MergeStableSecond(k, a[1..], b, c);
      } else {
        MergeStableSecond(k, a, b[1..], c);
      }
    }
  }

  /** `x` may stand before `y`: its key is no higher, and lower if `x` is of the first list and `y` is not. */
  predicate Before(k: Keys, a: seq<nat>, x: nat, y: nat)
    requires x in k && y in k
  {
    k[x] <= k[y] && (x in a && y !in a ==> k[x] < k[y])
  }

  /** The merge of sorted lists is sorted, and of two equal keys the one from the second list comes first. */
  lemma {:induction false} MergeSorted(k: Keys, a: seq<nat>, b: seq<nat>, c: seq<nat>)
    requires Keyed(k, a) && Keyed(k, b) && Sorted(k, a) && Sorted(k, b)
    requires forall x | x in a :: x in c
    requires forall x | x in b :: x !in c
    ensures Keyed(k, Merge(k, a, b))
    ensures var r := Merge(k, a, b);
      forall i, j | 0 <= i < j < |r| :: Before(k, c, r[i], r[j])
    decreases |a| + |b|
  {
    MergeMembers(k, a, b);
    if a != [] && b != [] {
      var r := Merge(k, a, b);
      if k[a[0]] < k[b[0]] {
        MergeSorted(k, a[1..], b, c);
        MergeMembers(k, a[1..], b);
        var rest := Merge(k, a[1..], b);
        forall j | 0 <= j < |rest| ensures Before(k, c, a[0], rest[j]) {
          assert rest[j] in rest;
          HeadBeforeFirst(k, a, b, c, rest[j]);
        }
        ConsBefore(k, c, a[0], rest);
      } else {
        MergeSorted(k, a, b[1..], c);
        MergeMembers(k, a, b[1..]);
        var rest := Merge(k, a, b[1..]);
        forall j | 0 <= j < |rest| ensures Before(k, c, b[0], rest[j]) {
          assert rest[j] in rest;
          HeadBeforeSecond(k, a, b, c, rest[j]);
        }
        ConsBefore(k, c, b[0], rest);
      }
    } else {
      forall i, j | 0 <= i < j < |a| ensures Before(k, c, a[i], a[j]) {
        assert a[j] in a;
      }
      forall i, j | 0 <= i < j < |b| ensures Before(k, c, b[i], b[j]) {
        assert b[i] in b;
      }
    }
  }

  lemma HeadBeforeFirst(k: Keys, a: seq<nat>, b: seq<nat>, c: seq<nat>, y: nat)
    requires Keyed(k, a) && Keyed(k, b) && Sorted(k, a) && Sorted(k, b) && a != [] && b != [] && k[a[0]] < k[b[0]]
    requires forall x | x in a :: x in c
    requires y in a[1..] || y in b
    ensures y in k && a[0] in k && Before(k, c, a[0], y)
  {
    if y in a[1..] {
      var i :| 0 <= i < |a[1..]| && a[1..][i] == y;
      assert a[i + 1] == y && y in a;
    }
  }

  lemma HeadBeforeSecond(k: Keys, a: seq<nat>, b: seq<nat>, c: seq<nat>, y: nat)
    requires Keyed(k, a) && Keyed(k, b) && Sorted(k, a) && Sorted(k, b) && a != [] && b != [] && k[a[0]] >= k[b[0]]
    requires forall x | x in b :: x !in c
    requires y in a || y in b[1..]
    ensures y in k && b[0] in k && Before(k, c, b[0], y)
  {
    assert b[0] in b;
    if y in b[1..] {
      var i :| 0 <= i < |b[1..]| && b[1..][i] == y;
      assert b[i + 1] == y;
    } else {
      var i :| 0 <= i < |a| && a[i] == y;
    }
  }

  lemma ConsBefore(k: Keys, c: seq<nat>, x: nat, rest: seq<nat>)
    requires x in k && Keyed(k, rest)
    requires forall j | 0 <= j < |rest| :: Before(k, c, x, rest[j])
    requires forall i, j | 0 <= i < j < |rest| :: Before(k, c, rest[i], rest[j])
    ensures Keyed(k, [x] + rest)
    ensures var r := [x] + rest;
      forall i, j | 0 <= i < j < |r| :: Before(k, c, r[i], r[j])
  {
    var r := [x] + rest;
    assert forall i | 0 <= i < |r| :: r[i] == if i == 0 then x else rest[i - 1];
    hide Before;
  }

  // ----- the code

  lemma StepFirst(k: Keys, out: seq<nat>, x: seq<nat>, y: seq<nat>)
    requires Keyed(k, x) && Keyed(k, y) && x != [] && y != [] && k[x[0]] < k[y[0]]
    ensures Keyed(k, x[1..]) && out + Merge(k, x, y) == out + [x[0]] + Merge(k, x[1..], y)
  {
    assert out + [x[0]] + Merge(k, x[1..], y) == out + ([x[0]] + Merge(k, x[1..], y));
  }

  lemma StepSecond(k: Keys, out: seq<nat>, x: seq<nat>, y: seq<nat>)
    requires Keyed(k, x) && Keyed(k, y) && x != [] && y != [] && k[x[0]] >= k[y[0]]
    ensures Keyed(k, y[1..]) && out + Merge(k, x, y) == out + [y[0]] + Merge(k, x, y[1..])
  {
    assert out + [y[0]] + Merge(k, x, y[1..]) == out + ([y[0]] + Merge(k, x, y[1..]));
  }

  lemma MergeOne(k: Keys, out: seq<nat>, x: seq<nat>, y: seq<nat>)
    requires Keyed(k, x) && Keyed(k, y) && (x == [] || y == [])
    ensures out + Merge(k, x, y) == out + x + y
  {
  }

  lemma HeadsDiffer(m: Memory, h1: nat, h2: nat, a: seq<nat>, b: seq<nat>)
    requires Ring(m, h1, a) && Ring(m, h2, b) && Nodes(h1, a) !! Nodes(h2, b)
    ensures h1 in m && h2 in m && m[h1] != m[h2] && h1 != h2
  {
    RingEnds(m, h1, a);
    RingEnds(m, h2, b);
    assert Round(h1, a)[1] in Nodes(h1, a) && Round(h2, b)[1] in Nodes(h2, b);
    assert h1 in Nodes(h1, a) && h2 in Nodes(h2, b);
  }

  lemma NodesStep(h: nat, s: seq<nat>)
    ensures s != [] ==> Nodes(h, s) == Nodes(h, s[1..]) + {s[0]}
    ensures forall e :: Nodes(h, s + [e]) == Nodes(h, s) + {e}
  {
    if s != [] {
      assert forall i | 1 <= i < |s| :: s[i] == s[1..][i - 1];
    }
    forall e ensures Nodes(h, s + [e]) == Nodes(h, s) + {e} {
      var r := s + [e];
      assert r[|s|] == e;
      assert forall i | 0 <= i < |s| :: r[i] == s[i];
    }
  }

  lemma HeadIn(h: nat)
    ensures h in Nodes(h, [])
  {
  }

  /** Two lists and the memory their links are in. */
  class Lists {
    var m: Memory
    var size1: nat
    var size2: nat
    const keys: Keys

    /** Move the first item of one ring to the end of another. */
    method MoveFirst(e: nat, h: nat, t: nat, ghost s: seq<nat>, ghost out: seq<nat>)
      requires Ring(m, h, s) && s != [] && e == s[0] && Ring(m, t, out) && Nodes(h, s) !! Nodes(t, out)
      modifies this`m
      ensures Ring(m, h, s[1..]) && Ring(m, t, out + [e]) && m.Keys == old(m).Keys
      ensures Nodes(h, s[1..]) !! Nodes(t, out + [e])
      ensures Nodes(h, s[1..]) <= Nodes(h, s) && Nodes(t, out + [e]) <= Nodes(t, out) + Nodes(h, s)
      ensures forall x | x in m && x !in Nodes(h, s) && x !in Nodes(t, out) :: m[x] == old(m)[x]
    {
      ghost var m0 := m;
      NodesStep(h, s);
      NodesStep(t, out);
      RemoveFirst(m, h, s);
      m := RemoveInit(m, e);
      RingFrame(m0, m, t, out);
      ghost var m1 := m;
      RestDistinct(h, s);
      assert e !in Nodes(h, s[1..]);
      AddLast(m, t, out, e);
      m := AddTail(m, e, t);
      RingFrame(m1, m, h, s[1..]);
    }

    /** The items still to come, and where the iterators stand. */
    ghost predicate Merging(h1: nat, h2: nat, t: nat, x: seq<nat>, y: seq<nat>, out: seq<nat>, i1: nat, i2: nat)
      reads this
    {
      && Ring(m, h1, x) && Ring(m, h2, y) && Ring(m, t, out)
      && Nodes(h1, x) !! Nodes(h2, y) && Nodes(h1, x) !! Nodes(t, out) && Nodes(h2, y) !! Nodes(t, out)
      && i1 == Round(h1, x)[1] && i2 == Round(h2, y)[1]
    }

    method TakeFirst(h1: nat, h2: nat, t: nat, i1: nat, i2: nat, ghost x: seq<nat>, ghost y: seq<nat>, ghost out: seq<nat>)
      returns (next: nat)
      requires Merging(h1, h2, t, x, y, out, i1, i2) && x != []
      modifies this`m
      ensures Merging(h1, h2, t, x[1..], y, out + [i1], next, i2) && m.Keys == old(m).Keys
    {
      ghost var m0 := m;
      RingEnds(m, h1, x);
      next := m[i1].next;
      assert Round(h1, x)[2] == Round(h1, x[1..])[1];
      MoveFirst(i1, h1, t, x, out);
      RingEnds(m0, h2, y);
      assert forall z | z in Nodes(h2, y) :: z in m0;
      RingFrame(m0, m, h2, y);
    }

    method TakeSecond(h1: nat, h2: nat, t: nat, i1: nat, i2: nat, ghost x: seq<nat>, ghost y: seq<nat>, ghost out: seq<nat>)
      returns (next: nat)
      requires Merging(h1, h2, t, x, y, out, i1, i2) && y != []
      modifies this`m
      ensures Merging(h1, h2, t, x, y[1..], out + [i2], i1, next) && m.Keys == old(m).Keys
    {
      ghost var m0 := m;
      RingEnds(m, h2, y);
      next := m[i2].next;
      assert Round(h2, y)[2] == Round(h2, y[1..])[1];
      MoveFirst(i2, h2, t, y, out);
      RingEnds(m0, h1, x);
      assert forall z | z in Nodes(h1, x) :: z in m0;
      RingFrame(m0, m, h1, x);
    }

    /** The first loop of do_merge: while both lists have items, the lower one goes to the ring of `t`. */
    method MergeBoth(h1: nat, h2: nat, t: nat, ghost a: seq<nat>, ghost b: seq<nat>)
      returns (i1: nat, i2: nat, ghost x: seq<nat>, ghost y: seq<nat>, ghost out: seq<nat>)
      requires Ring(m, h1, a) && Ring(m, h2, b) && Ring(m, t, []) && Keyed(keys, a) && Keyed(keys, b)
      requires Nodes(h1, a) !! Nodes(h2, b) && Nodes(h1, a) !! Nodes(t, []) && Nodes(h2, b) !! Nodes(t, [])
      modifies this`m
      ensures Merging(h1, h2, t, x, y, out, i1, i2) && m.Keys == old(m).Keys
      ensures (x == [] || y == []) && out + x + y == Merge(keys, a, b)
    {
      x, y, out := a, b, [];
      RingEnds(m, h1, a);
      RingEnds(m, h2, b);
      i1, i2 := m[h1].next, m[h2].next;
      hide Ring, Nodes, Merge;
      while i1 != h1 && i2 != h2
        invariant Merging(h1, h2, t, x, y, out, i1, i2) && m.Keys == old(m).Keys
        invariant Keyed(keys, x) && Keyed(keys, y) && out + Merge(keys, x, y) == Merge(keys, a, b)
        decreases |x| + |y|
      {
        RingEnds(m, h1, x);
        RingEnds(m, h2, y);
        assert x != [] && y != [] && i1 == x[0] && i2 == y[0];
        if keys[i1] < keys[i2] {
          i1 := TakeFirst(h1, h2, t, i1, i2, x, y, out);
          StepFirst(keys, out, x, y);
          x, out := x[1..], out + [x[0]];
        } else {
          i2 := TakeSecond(h1, h2, t, i1, i2, x, y, out);
          StepSecond(keys, out, x, y);
          y, out := y[1..], out + [y[0]];
        }
      }
      RingEnds(m, h1, x);
      RingEnds(m, h2, y);
      assert x == [] || y == [];
      MergeOne(keys, out, x, y);
    }

    /** The second and third loop: what is left of either list follows. */
    method MergeRest(h1: nat, h2: nat, t: nat, j1: nat, j2: nat, ghost x0: seq<nat>, ghost y0: seq<nat>, ghost out0: seq<nat>)
      requires Merging(h1, h2, t, x0, y0, out0, j1, j2) && (x0 == [] || y0 == [])
      modifies this`m
      ensures Ring(m, h1, []) && Ring(m, h2, []) && Ring(m, t, out0 + x0 + y0) && m.Keys == old(m).Keys
      ensures h1 !in Nodes(t, out0 + x0 + y0) && h1 != h2 && h2 !in Nodes(t, out0 + x0 + y0)
    {
      ghost var x, y, out := x0, y0, out0;
      var i1, i2 := j1, j2;
      hide Ring, Nodes;
      while i1 != h1
        invariant Merging(h1, h2, t, x, y, out, i1, i2) && m.Keys == old(m).Keys
        invariant (x == [] || y == []) && out + x + y == out0 + x0 + y0
        decreases |x|
      {
        RingEnds(m, h1, x);
        assert x != [] && i1 == x[0] && y == [];
        i1 := TakeFirst(h1, h2, t, i1, i2, x, y, out);
        assert out + x + y == out + [x[0]] + x[1..] + y;
        x, out := x[1..], out + [x[0]];
      }
      RingEnds(m, h1, x);
      assert x == [];
      while i2 != h2
        invariant Merging(h1, h2, t, x, y, out, i1, i2) && m.Keys == old(m).Keys
        invariant x == [] && out + x + y == out0 + x0 + y0
        decreases |y|
      {
        RingEnds(m, h2, y);
        assert y != [] && i2 == y[0];
        i2 := TakeSecond(h1, h2, t, i1, i2, x, y, out);
        assert out + x + y == out + [y[0]] + x + y[1..];
        y, out := y[1..], out + [y[0]];
      }
      RingEnds(m, h2, y);
      assert y == [] && out == out0 + x0 + y0;
      HeadIn(h1);
      HeadIn(h2);
    }

    /** do_merge, where `t` is the address of its local head. A list merged with itself is left alone: the first
        test compares the links of the two heads. */
    method DoMerge(h1: nat, h2: nat, t: nat, ghost a: seq<nat>, ghost b: seq<nat>)
      requires Ring(m, h1, a) && Ring(m, h2, b) && t !in m && Keyed(keys, a) && Keyed(keys, b)
      requires (h1 == h2 && a == b) || Nodes(h1, a) !! Nodes(h2, b)
      requires size1 == |a| && size2 == |b|
      modifies this
      ensures h1 == h2 ==> m == old(m) && size1 == old(size1)
      ensures h1 != h2 && (a != [] || b != []) ==>
        && Ring(m, h1, Merge(keys, a, b)) && Ring(m, h2, [])
        && size1 == |Merge(keys, a, b)| && size2 == 0
      ensures h1 != h2 && a == [] && b == [] ==> Ring(m, h1, [t]) && !Ring(m, h1, [])
    {
      RingEnds(m, h1, a);
      RingEnds(m, h2, b);
      if m[h1] == m[h2] {
        if h1 != h2 {
          HeadsDiffer(m, h1, h2, a, b);
        }
        return;
      }
      size1 := size1 + size2;
      ghost var m0 := m;
      m := m[t := Links(t, t)];
      RingEmpty(m, t);
      RingFrame(m0, m, h1, a);
      RingFrame(m0, m, h2, b);
      assert t !in Nodes(h1, a) && t !in Nodes(h2, b);
      assert Nodes(t, []) == {t};
      hide Ring, Nodes, Merge, Keyed;
      var i1, i2, x, y, out := MergeBoth(h1, h2, t, a, b);
      MergeRest(h1, h2, t, i1, i2, x, y, out);
      size2 := 0;
      SwapHeads(h1, h2, t, Merge(keys, a, b));
    }

    /** The list_swap at the end. */
    method SwapHeads(h1: nat, h2: nat, t: nat, ghost r: seq<nat>)
      requires Ring(m, h1, []) && Ring(m, h2, []) && Ring(m, t, r)
      requires h1 !in Nodes(t, r) && h2 !in Nodes(t, r) && h1 != h2
      modifies this`m
      ensures r != [] ==> Ring(m, h1, r) && Ring(m, h2, [])
      ensures r == [] ==> Ring(m, h1, [t]) && !Ring(m, h1, [])
    {
      ghost var m1 := m;
      assert h1 != t;
      if r == [] {
        SwapBothEmpty(m, h1, t);
      } else {
        SwapIn(m, h1, t, r);
      }
      m := Swap(m, h1, t);
      if r != [] {
        RingEnds(m1, h2, []);
        assert Nodes(h2, []) == {h2};
        RingFrame(m1, m, h2, []);
      }
    }
  }
}
