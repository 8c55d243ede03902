/** The ramdisk tool's ordering of items by dependency. Items are numbered from zero, and `deps[i]` lists the
    items that item `i` depends on. */
module Dependency {
  import opened Prelude

  type Lists = seq<seq<nat>>

  /** How often `v` is in a list. */
  function Occurs(s: seq<nat>, v: nat): nat {
    if s == [] then 0 else Occurs(s[..|s| - 1], v) + if s[|s| - 1] == v then 1 else 0
  }

  lemma OccursEnd(s: seq<nat>, x: nat, v: nat)
    ensures Occurs(s + [x], v) == Occurs(s, v) + if x == v then 1 else 0
  {
    assert (s + [x])[..|s|] == s;
  }

  lemma {:induction false} OccursIn(s: seq<nat>, v: nat)
    ensures Occurs(s, v) > 0 <==> v in s
  {
    if s != [] {
      OccursIn(s[..|s| - 1], v);
      assert s == s[..|s| - 1] + [s[|s| - 1]];
    }
  }

  /** How often `v` is listed in all the lists together. */
  function CountIn(g: Lists, v: nat): nat {
    if g == [] then 0 else Occurs(g[0], v) + CountIn(g[1..], v)
  }

  lemma {:induction false} CountUpdate(g: Lists, u: nat, l: seq<nat>, v: nat)
    requires u < |g|
    ensures CountIn(g[u := l], v) == CountIn(g, v) - Occurs(g[u], v) + Occurs(l, v)
  {
    if u == 0 {
      assert g[0 := l][1..] == g[1..];
    } else {
      CountUpdate(g[1..], u - 1, l, v);
      assert g[u := l][1..] == g[1..][u - 1 := l];
    }
  }

  lemma {:induction false} CountZero(g: Lists, v: nat)
    ensures CountIn(g, v) == 0 <==> forall u | 0 <= u < |g| :: v !in g[u]
  {
    if g != [] {
      CountZero(g[1..], v);
      assert g == [g[0]] + g[1..];
      OccursIn(g[0], v);
    }
  }

  predicate InRange(deps: Lists) {
    forall i, k | 0 <= i < |deps| && 0 <= k < |deps[i]| :: deps[i][k] < |deps|
  }

  /** Dependencies come before the items that name them, in a listing of items. */
  ghost predicate Ordered(deps: Lists, s: seq<nat>) {
    forall j, d | 0 <= j < |s| && s[j] < |deps| && d in deps[s[j]] :: d in s[..j]
  }

  /** Every item once, each after all it depends on. */
  ghost predicate IsOrder(deps: Lists, s: seq<nat>) {
    Distinct(s) && (forall v: nat :: v in s <==> v < |deps|) && Ordered(deps, s)
  }

  /** The items can be ranked with every dependency below its dependents. */
  ghost predicate Ranks(deps: Lists, rank: seq<nat>) {
    |rank| == |deps| && forall i, d | 0 <= i < |deps| && d in deps[i] && d < |deps| :: rank[d] < rank[i]
  }

  ghost predicate Acyclic(deps: Lists) {
    exists rank :: Ranks(deps, rank)
  }

  /** No item is named as a dependency twice. */
  ghost predicate NamedOnce(deps: Lists) {
    forall d: nat | d < |deps| :: CountIn(deps, d) <= 1
  }

  // ----- the reversed graph

  /** `g[d]` lists the dependents of `d`: item `i` as often as it names `d`. */
  ghost predicate Reversed(deps: Lists, g: Lists) {
    && |g| == |deps| && InRange(g)
    && (forall d, i | 0 <= d < |g| && 0 <= i < |deps| :: Occurs(g[d], i) == Occurs(deps[i], d))
    && (forall d | 0 <= d < |g| :: |g[d]| == CountIn(deps, d))
    && (forall i | 0 <= i < |deps| :: CountIn(g, i) == |deps[i]|)
  }

  lemma {:induction false} CountExtend(g: Lists, u: nat, x: nat, v: nat)
    requires u < |g|
    ensures CountIn(g[u := g[u] + [x]], v) == CountIn(g, v) + if x == v then 1 else 0
  {
    CountUpdate(g, u, g[u] + [x], v);
    OccursEnd(g[u], x, v);
  }

  /** One more dependency. */
  lemma ReversedStep(deps: Lists, g: Lists, i: nat, d: nat)
    requires Reversed(deps, g) && i < |deps| && d < |deps|
    ensures Reversed(deps[i := deps[i] + [d]], g[d := g[d] + [i]])
  {
    var deps', g' := deps[i := deps[i] + [d]], g[d := g[d] + [i]];
    forall c, x | 0 <= c < |g| && 0 <= x < |deps| ensures Occurs(g'[c], x) == Occurs(deps'[x], c) {
      OccursEnd(g[d], i, x);
      OccursEnd(deps[i], d, c);
    }
    forall c | 0 <= c < |g| ensures |g'[c]| == CountIn(deps', c) {
      CountExtend(deps, i, d, c);
    }
    forall x | 0 <= x < |deps| ensures CountIn(g', x) == |deps'[x]| {
      CountExtend(g, d, i, x);
    }
    hide Occurs, CountIn;
  }

  lemma {:induction false} CountEmpty(g: Lists, v: nat)
    requires forall u | 0 <= u < |g| :: g[u] == []
    ensures CountIn(g, v) == 0
  {
    if g != [] {
      CountEmpty(g[1..], v);
    }
  }

  /** The first two loops: the dependents of every item, and the number of dependencies of every item. */
  method Build(deps: Lists) returns (g: Lists, degree: seq<nat>)
    requires InRange(deps)
    ensures Reversed(deps, g)
    ensures |degree| == |deps| && forall i | 0 <= i < |deps| :: degree[i] == |deps[i]|
  {
    g := seq(|deps|, _ => []);
    degree := seq(|deps|, _ => 0);
    ghost var p: Lists := seq(|deps|, _ => []);
    forall v: nat ensures CountIn(g, v) == 0 && CountIn(p, v) == 0 {
      CountEmpty(g, v);
      CountEmpty(p, v);
    }
    hide Reversed;
    for i := 0 to |deps|
      invariant |p| == |deps| && Reversed(p, g) && |degree| == |deps|
      invariant forall x | 0 <= x < |deps| :: p[x] == (if x < i then deps[x] else []) && degree[x] == |p[x]|
    {
      for k := 0 to |deps[i]|
        invariant |p| == |deps| && Reversed(p, g) && |degree| == |deps|
        invariant forall x | 0 <= x < |deps| ::
          p[x] == (if x < i then deps[x] else if x == i then deps[i][..k] else []) && degree[x] == |p[x]|
      {
        var d := deps[i][k];
        ReversedStep(p, g, i, d);
        degree := degree[i := degree[i] + 1];
        g := g[d := g[d] + [i]];
        assert deps[i][..k + 1] == deps[i][..k] + [d];
        p := p[i := p[i] + [d]];
      }
      assert deps[i][..|deps[i]|] == deps[i];
    }
    assert p == deps;
  }

  // ----- the main loop

  function Popped(l: seq<nat>): seq<nat> {
    if l == [] then [] else l[..|l| - 1]
  }

  /** Every dependency of the item listed at `j` is done, and listed before it. */
  ghost predicate DoneAt(deps: Lists, done: seq<nat>, listed: seq<nat>, j: nat)
    requires j < |listed|
  {
    listed[j] < |deps| ==> forall d | d in deps[listed[j]] :: d in listed[..j] && d in done
  }

  ghost predicate DepsDone(deps: Lists, done: seq<nat>, listed: seq<nat>) {
    forall j | 0 <= j < |listed| :: DoneAt(deps, done, listed, j)
  }

  /** The degrees count the edges that are left. */
  ghost predicate Counts(g: Lists, degree: seq<nat>) {
    |degree| == |g| && InRange(g) && forall v | 0 <= v < |g| :: degree[v] == CountIn(g, v)
  }

  /** Each item done has given up its last edge, and the others none. */
  ghost predicate Left(g0: Lists, g: Lists, done: seq<nat>) {
    |g| == |g0| && forall u | 0 <= u < |g| :: g[u] == if u in done then Popped(g0[u]) else g0[u]
  }

  /** The items listed are those with no dependency left. */
  ghost predicate Listed(degree: seq<nat>, s: seq<nat>) {
    Distinct(s) && forall v: nat :: v in s <==> v < |degree| && degree[v] == 0
  }

  /** `g0` is the graph built, `g` what is left of it, `done` the output and `q` the queue. */
  ghost predicate Sorting(deps: Lists, g0: Lists, g: Lists, degree: seq<nat>, done: seq<nat>, q: seq<nat>) {
    && Reversed(deps, g0) && InRange(deps) && |g| == |deps|
    && Counts(g, degree) && Left(g0, g, done) && Listed(degree, done + q) && DepsDone(deps, done, done + q)
  }

  lemma Shift(done: seq<nat>, q: seq<nat>)
    requires q != []
    ensures done + q == done + [q[0]] + q[1..] && (done + q)[|done|] == q[0]
    ensures q[0] in done + q
    ensures Distinct(done + q) ==> q[0] !in done
  {
    assert (done + q)[|done|] == q[0];
    assert forall i | 0 <= i < |done| :: (done + q)[i] == done[i];
  }

  lemma MoreDone(deps: Lists, done: seq<nat>, n: nat, s: seq<nat>)
    requires DepsDone(deps, done, s)
    ensures DepsDone(deps, done + [n], s)
  {
    forall j | 0 <= j < |s| ensures DoneAt(deps, done + [n], s, j) {
      assert DoneAt(deps, done, s, j);
    }
  }

  lemma LeftMore(g0: Lists, g: Lists, done: seq<nat>, n: nat)
    requires Left(g0, g, done) && n < |g| && n !in done
    ensures Left(g0, g[n := Popped(g[n])], done + [n]) && g[n] == g0[n]
  {
  }

  /** An item with no edge: it is only listed. */
  lemma StepPlain(deps: Lists, g0: Lists, g: Lists, degree: seq<nat>, done: seq<nat>, q: seq<nat>)
    requires Sorting(deps, g0, g, degree, done, q) && q != []
    ensures q[0] < |deps| && q[0] !in done && g[q[0]] == g0[q[0]]
    ensures g[q[0]] == [] ==> Sorting(deps, g0, g, degree, done + [q[0]], q[1..])
  {
    var n := q[0];
    Shift(done, q);
    assert n < |deps|;
    LeftMore(g0, g, done, n);
    MoreDone(deps, done, n, done + q);
    assert g[n] == [] ==> g[n := Popped(g[n])] == g;
    hide Reversed, Left, DepsDone, Distinct, Counts, InRange;
  }

  /** An edge is popped: the degree of its end goes down by one, and nothing else changes. */
  lemma PopCounts(g: Lists, n: nat, v: nat)
    requires n < |g| && g[n] != []
    ensures CountIn(g[n := Popped(g[n])], v) == CountIn(g, v) - if g[n][|g[n]| - 1] == v then 1 else 0
    ensures CountIn(g, g[n][|g[n]| - 1]) > 0
  {
    CountUpdate(g, n, Popped(g[n]), v);
    var e := g[n][|g[n]| - 1];
    CountZero(g, e);
    assert e in g[n];
  }

  lemma CountsPop(g: Lists, degree: seq<nat>, n: nat)
    requires Counts(g, degree) && n < |g| && g[n] != []
    ensures var e := g[n][|g[n]| - 1];
      e < |g| && degree[e] > 0 && Counts(g[n := Popped(g[n])], degree[e := degree[e] - 1])
  {
    var e := g[n][|g[n]| - 1];
    PopCounts(g, n, e);
    var g', degree' := g[n := Popped(g[n])], degree[e := degree[e] - 1];
    forall v | 0 <= v < |g| ensures degree'[v] == CountIn(g', v) {
      PopCounts(g, n, v);
    }
    hide CountIn;
  }

  /** The dependencies of an item whose last edge just went are all done. */
  lemma DepsOf(deps: Lists, g0: Lists, g: Lists, done: seq<nat>, e: nat)
    requires Reversed(deps, g0) && InRange(deps) && Left(g0, g, done) && e < |deps| && CountIn(g, e) == 0
    ensures forall d | d in deps[e] :: d in done
  {
    CountZero(g, e);
    forall d | d in deps[e] ensures d in done {
      var k :| 0 <= k < |deps[e]| && deps[e][k] == d;
      OccursIn(deps[e], d);
      OccursIn(g0[d], e);
      assert e in g0[d] && e !in g[d];
    }
  }

  /** One more item listed at the end. */
  lemma ListMore(deps: Lists, degree: seq<nat>, done: seq<nat>, s: seq<nat>, e: nat)
    requires Listed(degree, s) && DepsDone(deps, done, s) && e < |degree| && degree[e] == 1
    requires |degree| == |deps| && (forall d | d in deps[e] :: d in done) && forall d | d in done :: d in s
    ensures Listed(degree[e := 0], s + [e]) && DepsDone(deps, done, s + [e])
  {
    assert e !in s;
    BackDistinct(s, e);
    var s' := s + [e];
    forall j | 0 <= j < |s'| ensures DoneAt(deps, done, s', j) {
      if j < |s| {
        assert DoneAt(deps, done, s, j) && s'[..j] == s[..j];
      } else {
        assert s'[..j] == s;
      }
    }
  }

  lemma ListSame(degree: seq<nat>, s: seq<nat>, e: nat)
    requires Listed(degree, s) && e < |degree| && degree[e] > 1
    ensures Listed(degree[e := degree[e] - 1], s)
  {
  }

  lemma Requeue(done: seq<nat>, q: seq<nat>, e: nat)
    requires q != []
    ensures (done + [q[0]]) + q[1..] == done + q
    ensures (done + [q[0]]) + (q[1..] + [e]) == done + q + [e]
  {
  }

  lemma StepEdge(deps: Lists, g0: Lists, g: Lists, degree: seq<nat>, done: seq<nat>, q: seq<nat>)
    requires Sorting(deps, g0, g, degree, done, q) && q != [] && q[0] < |deps| && g[q[0]] != [] && q[0] !in done
    ensures var n := q[0];
      var e := g[n][|g[n]| - 1];
      && e < |deps| && degree[e] > 0
      && var degree', g' := degree[e := degree[e] - 1], g[n := Popped(g[n])];
      && (degree[e] == 1 ==> Sorting(deps, g0, g', degree', done + [n], q[1..] + [e]))
      && (degree[e] > 1 ==> Sorting(deps, g0, g', degree', done + [n], q[1..]))
  {
    var n := q[0];
    var e := g[n][|g[n]| - 1];
    CountsPop(g, degree, n);
    LeftMore(g0, g, done, n);
    MoreDone(deps, done, n, done + q);
    Requeue(done, q, e);
    if degree[e] == 1 {
      LastEdge(deps, g0, g, degree, done, q);
    } else {
      ListSame(degree, done + q, e);
    }
    hide Reversed, Left, DepsDone, Listed, InRange, Distinct, CountIn, Popped;
  }

  lemma LastEdge(deps: Lists, g0: Lists, g: Lists, degree: seq<nat>, done: seq<nat>, q: seq<nat>)
    requires Sorting(deps, g0, g, degree, done, q) && q != [] && q[0] < |deps| && g[q[0]] != [] && q[0] !in done
    requires var e := g[q[0]][|g[q[0]]| - 1];
      e < |degree| && degree[e] == 1
    ensures var e := g[q[0]][|g[q[0]]| - 1];
      Listed(degree[e := 0], done + q + [e]) && DepsDone(deps, done + [q[0]], done + q + [e])
  {
    var n := q[0];
    var e := g[n][|g[n]| - 1];
    CountsPop(g, degree, n);
    var g' := g[n := Popped(g[n])];
    LeftMore(g0, g, done, n);
    MoreDone(deps, done, n, done + q);
    assert CountIn(g', e) == 0;
    DepsOf(deps, g0, g', done + [n], e);
    assert forall d | d in done + [n] :: d in done + q;
    ListMore(deps, degree, done + [n], done + q, e);
    hide Reversed, Left, DepsDone, Listed, InRange, Distinct, CountIn, Popped;
  }

  // ----- the end

  predicate AllEmpty(g: Lists) {
    forall u | 0 <= u < |g| :: g[u] == []
  }

  /** If no edge is left, the output is an order of all items, and no item has two dependents. */
  lemma AllPopped(deps: Lists, g0: Lists, g: Lists, degree: seq<nat>, done: seq<nat>)
    requires Sorting(deps, g0, g, degree, done, []) && AllEmpty(g)
    ensures IsOrder(deps, done)
    ensures NamedOnce(deps)
  {
    assert done + [] == done;
    forall v: nat | v < |deps| ensures degree[v] == 0 {
      CountEmpty(g, v);
    }
    forall d: nat | d < |deps| ensures CountIn(deps, d) <= 1 {
      assert |g0[d]| == CountIn(deps, d) && |g[d]| == 0;
    }
    assert Ordered(deps, done) by {
      DoneOrdered(deps, done);
    }
    hide Reversed, DepsDone, Distinct, Ordered, CountIn;
  }

  lemma DoneOrdered(deps: Lists, done: seq<nat>)
    requires DepsDone(deps, done, done)
    ensures Ordered(deps, done)
  {
    forall j, d | 0 <= j < |done| && done[j] < |deps| && d in deps[done[j]] ensures d in done[..j] {
      assert DoneAt(deps, done, done, j);
    }
  }

  /** If the items can be ranked and none has two dependents, every item gets done. */
  lemma {:induction false} AllDone(deps: Lists, g0: Lists, g: Lists, degree: seq<nat>, done: seq<nat>, rank: seq<nat>, u: nat)
    requires Sorting(deps, g0, g, degree, done, []) && Ranks(deps, rank) && u < |deps|
    requires NamedOnce(deps)
    ensures u in done && g[u] == []
    decreases rank[u]
  {
    assert done + [] == done;
    forall w | 0 <= w < |g| ensures u !in g[w] {
      OccursIn(g0[w], u);
      OccursIn(deps[u], w);
      if u in g0[w] {
        AllDone(deps, g0, g, degree, done, rank, w);
      }
    }
    CountZero(g, u);
    assert |g0[u]| == CountIn(deps, u);
  }

  /** An order ranks the items. */
  lemma OrderRanks(deps: Lists, s: seq<nat>)
    requires IsOrder(deps, s)
    ensures Acyclic(deps)
  {
    var rank := seq(|deps|, v requires 0 <= v < |deps| => Position(s, v));
    forall i, d | 0 <= i < |deps| && d in deps[i] && d < |deps| ensures rank[d] < rank[i] {
      PositionAt(s, i);
      var j := Position(s, i);
      assert d in s[..j];
      PositionBefore(s, d, j);
    }
    assert Ranks(deps, rank);
  }

  function Position(s: seq<nat>, v: nat): nat {
    if s == [] || s[0] == v then 0 else 1 + Position(s[1..], v)
  }

  lemma {:induction false} PositionAt(s: seq<nat>, v: nat)
    requires v in s
    ensures Position(s, v) < |s| && s[Position(s, v)] == v
  {
    if s[0] != v {
      assert s == [s[0]] + s[1..];
      PositionAt(s[1..], v);
    }
  }

  lemma {:induction false} PositionBefore(s: seq<nat>, v: nat, j: nat)
    requires j <= |s| && v in s[..j]
    ensures Position(s, v) < j
  {
    if s[0] != v {
      assert s[..j] == [s[0]] + s[1..][..j - 1];
      PositionBefore(s[1..], v, j - 1);
    }
  }

  /** sort_by_dependency. It gives a list exactly if the items can be ordered at all and no item is named as a
      dependency twice; the list is then such an order. */
  method SortByDependency(deps: Lists) returns (r: Option<seq<nat>>)
    requires InRange(deps)
    ensures r.Some? ==> IsOrder(deps, r.value)
    ensures r.Some? <==> Acyclic(deps) && NamedOnce(deps)
  {
    var g, degree := Build(deps);
    ghost var g0 := g;
    var q: seq<nat> := Roots(deps, g, degree);
    hide Sorting, NamedOnce, AllEmpty, Reversed;
    var done: seq<nat> := [];
    while q != []
      invariant Sorting(deps, g0, g, degree, done, q)
      decreases |deps| - |done|
    {
      Progress(deps, g0, g, degree, done, q);
      StepPlain(deps, g0, g, degree, done, q);
      var n := q[0];
      if g[n] == [] {
        done, q := done + [n], q[1..];
      } else {
        StepEdge(deps, g0, g, degree, done, q);
        var e := g[n][|g[n]| - 1];
        degree := degree[e := degree[e] - 1];
        g := g[n := g[n][..|g[n]| - 1]];
        done, q := done + [n], q[1..];
        if degree[e] == 0 {
          q := q + [e];
        }
      }
    }
    var left := AnyLeft(g);
    if left {
      if Acyclic(deps) && NamedOnce(deps) {
        NothingLeft(deps, g0, g, degree, done);
      }
      return None;
    }
    AllPopped(deps, g0, g, degree, done);
    OrderRanks(deps, done);
    r := Some(done);
  }

  lemma Progress(deps: Lists, g0: Lists, g: Lists, degree: seq<nat>, done: seq<nat>, q: seq<nat>)
    requires Sorting(deps, g0, g, degree, done, q) && q != []
    ensures |done| < |deps|
  {
    DistinctBound(done + q, |deps|);
  }

  /** If the items can be ordered and none has two dependents, no edge is left. */
  lemma NothingLeft(deps: Lists, g0: Lists, g: Lists, degree: seq<nat>, done: seq<nat>)
    requires Sorting(deps, g0, g, degree, done, []) && Acyclic(deps) && NamedOnce(deps)
    ensures AllEmpty(g)
  {
    var rank :| Ranks(deps, rank);
    forall u | 0 <= u < |g| ensures g[u] == [] {
      AllDone(deps, g0, g, degree, done, rank, u);
    }
    hide NamedOnce, Ranks, Reversed, Left, Listed, DepsDone, Counts, InRange;
  }

  /** The items with no dependency. */
  method Roots(deps: Lists, g: Lists, degree: seq<nat>) returns (q: seq<nat>)
    requires InRange(deps) && Reversed(deps, g) && |degree| == |deps|
    requires forall i | 0 <= i < |deps| :: degree[i] == |deps[i]|
    ensures Sorting(deps, g, g, degree, [], q)
  {
    q := [];
    for i := 0 to |deps|
      invariant Distinct(q)
      invariant forall v: nat :: v in q <==> v < i && degree[v] == 0
    {
      if degree[i] == 0 {
        BackDistinct(q, i);
        q := q + [i];
      }
    }
    assert [] + q == q;
    forall j | 0 <= j < |q| ensures DoneAt(deps, [], q, j) {
      assert q[j] in q;
      assert deps[q[j]] == [];
    }
  }

  method AnyLeft(g: Lists) returns (left: bool)
    ensures left <==> !AllEmpty(g)
  {
    for i := 0 to |g|
      invariant forall u | 0 <= u < i :: g[u] == []
    {
      if g[i] != [] {
        return true;
      }
    }
    left := false;
  }

  /** Two items that depend on the same third one can be ordered, but get no list. */
  lemma SharedDependencyRefused()
    ensures var deps: Lists := [[], [0], [0]];
      InRange(deps) && IsOrder(deps, [0, 1, 2]) && Acyclic(deps) && !NamedOnce(deps)
  {
    var deps: Lists := [[], [0], [0]];
    var s: seq<nat> := [0, 1, 2];
    forall j, d | 0 <= j < |s| && s[j] < |deps| && d in deps[s[j]] ensures d in s[..j] {
      assert s[..j][0] == 0;
    }
    assert IsOrder(deps, s);
    OrderRanks(deps, [0, 1, 2]);
    assert CountIn(deps, 0) == 2 by {
      assert deps[1..] == [[0], [0]] && deps[1..][1..] == [[0]] && deps[1..][1..][1..] == [];
      assert Occurs([0], 0) == 1;
    }
  }
}
