/** What the AVL tree promises: it is a sorted map with exact heights, balanced, of logarithmic height, and
    its code on nodes linked by pointers. */
module AvlTree {
  import opened Avl
  import opened Bits
  import opened Prelude

  function KeySet(s: seq<Item>): set<int> {
    set i | 0 <= i < |s| :: s[i].key
  }

  lemma SortedCons(x: Item, s: seq<Item>)
    ensures Sorted([x] + s) <==> Sorted(s) && Above(s, x.key)
  {
    SortedSplit([], x, s);
    assert [] + [x] + s == [x] + s;
    hide Sorted;
  }

  lemma {:induction false} AddSorted(s: seq<Item>, k: int, d: Data)
    requires Sorted(s)
    ensures Sorted(Add(s, k, d))
    ensures forall b | b < k && Above(s, b) :: Above(Add(s, k, d), b)
  {
    if s == [] || k < s[0].key {
      SortedCons(Item(k, d), s);
    } else if k > s[0].key {
      AddSorted(s[1..], k, d);
      SortedCons(s[0], Add(s[1..], k, d));
    }
  }

  lemma {:induction false} AddKeys(s: seq<Item>, k: int, d: Data)
    requires Sorted(s)
    ensures KeySet(Add(s, k, d)) == KeySet(s) + {k}
    ensures |Add(s, k, d)| == |s| + if k in KeySet(s) then 0 else 1
  {
    if s == [] || k < s[0].key {
      KeysCons(Item(k, d), s);
    } else if k > s[0].key {
      AddKeys(s[1..], k, d);
      KeysCons(s[0], s[1..]);
      KeysCons(s[0], Add(s[1..], k, d));
      assert s == [s[0]] + s[1..];
      hide KeySet;
    }
  }

  lemma KeysCons(x: Item, s: seq<Item>)
    ensures KeySet([x] + s) == {x.key} + KeySet(s)
  {
    var r := [x] + s;
    assert r[0] == x;
    assert forall i | 0 <= i < |s| :: s[i] == r[i + 1];
  }

  lemma {:induction false} GetAdd(s: seq<Item>, k: int, d: Data, j: int)
    requires Sorted(s)
    ensures Get(Add(s, k, d), j) == if j == k && Get(s, k).None? then Some(d) else Get(s, j)
  {
    if s == [] || k < s[0].key {
      GetOutside(s, k);
    } else if k > s[0].key {
      GetAdd(s[1..], k, d, j);
    }
  }

  /** Insertion keeps the tree good, adds exactly the given key, and gives it the data if it is new; every
      other key keeps its data. */
  lemma InsertRight(t: Tree, k: int, d: Data)
    requires Good(t)
    ensures var r := Insert(t, k, d);
      && Good(r) && KeySet(Items(r)) == KeySet(Items(t)) + {k}
      && |Items(r)| == |Items(t)| + (if k in KeySet(Items(t)) then 0 else 1)
      && forall j :: Find(r, j) == if j == k && Find(t, k).None? then Some(d) else Find(t, j)
  {
    InsertItems(t, k, d);
    InsertShape(t, k, d);
    var s := Items(t);
    AddKeys(s, k, d);
    AddSorted(s, k, d);
    forall j ensures Find(Insert(t, k, d), j) == if j == k && Find(t, k).None? then Some(d) else Find(t, j) {
      FindRight(Insert(t, k, d), j);
      FindRight(t, j);
      FindRight(t, k);
      GetAdd(s, k, d, j);
    }
    hide Insert, Items, Shape;
  }

  // ----- removal

  function KeySeq(s: seq<Item>): seq<int> {
    seq(|s|, i requires 0 <= i < |s| => s[i].key)
  }

  lemma {:induction false} DelKeys(s: seq<Item>, k: int)
    requires Sorted(s)
    ensures Sorted(Del(s, k)) && KeySet(Del(s, k)) == KeySet(s) - {k}
    ensures |Del(s, k)| == |s| - if k in KeySet(s) then 1 else 0
    ensures forall b | Above(s, b) :: Above(Del(s, k), b)
  {
    if s != [] {
      assert s == [s[0]] + s[1..];
      KeysCons(s[0], s[1..]);
      if s[0].key != k {
        DelKeys(s[1..], k);
        KeysCons(s[0], Del(s[1..], k));
        SortedCons(s[0], Del(s[1..], k));
        assert Above(s[1..], s[0].key);
        hide KeySet, Sorted;
      }
    }
  }

  /** Shifting changes the keys just as deleting does. */
  lemma {:induction false} ShiftedKeys(s: seq<Item>, k: int)
    requires HasNext(s, k)
    ensures KeySeq(Shifted(s, k)) == KeySeq(Del(s, k))
  {
    if s[0].key == k {
      assert s[1..] == [s[1]] + s[2..];
    } else {
      ShiftedKeys(s[1..], k);
      assert KeySeq([s[0]] + Shifted(s[1..], k)) == [s[0].key] + KeySeq(Shifted(s[1..], k));
      assert KeySeq([s[0]] + Del(s[1..], k)) == [s[0].key] + KeySeq(Del(s[1..], k));
    }
  }

  lemma SameKeySeq(a: seq<Item>, b: seq<Item>)
    requires KeySeq(a) == KeySeq(b)
    ensures KeySet(a) == KeySet(b) && |a| == |b| && (Sorted(a) <==> Sorted(b))
  {
    assert |a| == |KeySeq(a)| && |b| == |KeySeq(b)|;
    assert forall i | 0 <= i < |a| :: a[i].key == KeySeq(a)[i] && b[i].key == KeySeq(b)[i];
  }

  /** Removal keeps the tree good and takes away exactly the given key. */
  lemma RemoveRight(t: Tree, k: int)
    requires Good(t)
    ensures var r := Remove(t, k);
      && Good(r) && KeySet(Items(r)) == KeySet(Items(t)) - {k}
      && |Items(r)| == |Items(t)| - (if k in KeySet(Items(t)) then 1 else 0)
  {
    RemoveItems(t, k);
    RemoveShape(t, k);
    var s := Items(t);
    DelKeys(s, k);
    if TwoKids(t, k) {
      ShiftedKeys(s, k);
      SameKeySeq(Shifted(s, k), Del(s, k));
    }
  }

  /** The key after `k`, with its data. */
  function Next(s: seq<Item>, k: int): Item
    requires HasNext(s, k)
  {
    if s[0].key == k then s[1] else Next(s[1..], k)
  }

  lemma {:induction false} GetDel(s: seq<Item>, k: int, j: int)
    requires Sorted(s)
    ensures Get(Del(s, k), j) == if j == k then None else Get(s, j)
  {
    if s != [] {
      GetDel(s[1..], k, j);
      if s[0].key == k {
        GetOutside(s[1..], k);
      }
    }
  }

  lemma {:induction false} GetShifted(s: seq<Item>, k: int, j: int)
    requires Sorted(s) && HasNext(s, k)
    ensures Get(s, k).Some? && Next(s, k).key > k && Get(s, Next(s, k).key) == Some(Next(s, k).data)
    ensures Get(Shifted(s, k), j) ==
      if j == k then None else if j == Next(s, k).key then Get(s, k) else Get(s, j)
  {
    if s[0].key == k {
      assert s[1..][1..] == s[2..];
      var r := [Item(s[1].key, s[0].data)] + s[2..];
      assert r[1..] == s[2..];
      GetOutside(s[2..], k);
      GetOutside(s[2..], s[1].key);
    } else {
      GetShifted(s[1..], k, j);
      NextIn(s[1..], k);
    }
  }

  lemma {:induction false} NextIn(s: seq<Item>, k: int)
    requires HasNext(s, k)
    ensures exists i | 0 <= i < |s| :: s[i] == Next(s, k)
    ensures exists i | 0 <= i < |s| :: s[i].key == k
  {
    if s[0].key == k {
      assert s[1] == Next(s, k);
    } else {
      NextIn(s[1..], k);
      var i :| 0 <= i < |s[1..]| && s[1..][i] == Next(s, k);
      assert s[i + 1] == Next(s, k);
      var j :| 0 <= j < |s[1..]| && s[1..][j].key == k;
      assert s[j + 1].key == k;
    }
  }

  /** Removal leaves every other key its data exactly if the node of the key has fewer than two children, or
      the next key happens to have the same data. */
  lemma RemoveDataExact(t: Tree, k: int)
    requires Good(t)
    ensures TwoKids(t, k) ==> HasNext(Items(t), k)
    ensures (forall j | j != k :: Find(Remove(t, k), j) == Find(t, j))
      <==> (TwoKids(t, k) ==> Find(t, k) == Some(Next(Items(t), k).data))
  {
    RemoveItems(t, k);
    RemoveRight(t, k);
    var s, r := Items(t), Remove(t, k);
    forall j ensures Find(r, j) == Get(Items(r), j) && Find(t, j) == Get(s, j) {
      FindRight(r, j);
      FindRight(t, j);
    }
    if TwoKids(t, k) {
      forall j
        ensures Next(s, k).key > k && Get(s, Next(s, k).key) == Some(Next(s, k).data)
        ensures Get(Items(r), j) == if j == k then None else if j == Next(s, k).key then Get(s, k) else Get(s, j)
      {
        GetShifted(s, k, j);
      }
      assert Find(r, Next(s, k).key) == Get(s, k);
    } else {
      forall j ensures Get(Items(r), j) == if j == k then None else Get(s, j) {
        GetDel(s, k, j);
      }
    }
    hide Remove, Items, Find, Get, TwoKids, HasNext, Next;
  }

  /** Keys 2, 1 and 3, put in in that order: removing 2 leaves key 3 with the data of key 2. */
  lemma RemoveShiftsData(a: Data, b: Data)
    requires a != b
    ensures var t := Insert(Insert(Insert(Leaf, 2, a), 1, b), 3, b);
      Good(t) && Find(t, 3) == Some(b) && Find(Remove(t, 2), 3) == Some(a)
  {
    var t := Insert(Insert(Insert(Leaf, 2, a), 1, b), 3, b);
    assert Insert(Leaf, 2, a) == Node(2, a, 1, Leaf, Leaf);
    var t2 := Node(2, a, 2, Node(1, b, 1, Leaf, Leaf), Leaf);
    assert Insert(Insert(Leaf, 2, a), 1, b) == t2;
    assert Insert(t2.right, 3, b) == Node(3, b, 1, Leaf, Leaf);
    assert t == Node(2, a, 2, Node(1, b, 1, Leaf, Leaf), Node(3, b, 1, Leaf, Leaf));
    InsertRight(Leaf, 2, a);
    InsertRight(Insert(Leaf, 2, a), 1, b);
    InsertRight(Insert(Insert(Leaf, 2, a), 1, b), 3, b);
    assert Remove(t.right, 3) == Leaf;
    assert Remove(t, 2) == Node(3, a, 2, Node(1, b, 1, Leaf, Leaf), Leaf);
  }

  // ----- height

  function Fib(n: nat): nat {
    if n < 2 then n else Fib(n - 1) + Fib(n - 2)
  }

  /** A tree of height h has at least Fib(h + 2) - 1 keys. */
  lemma {:induction false} HeightFib(t: Tree)
    requires Shape(t)
    ensures H(t) >= 0 && Fib(H(t) + 2) <= |Items(t)| + 1
  {
    HeightSign(t);
    if t.Node? {
      HeightSign(t.left);
      HeightSign(t.right);
      HeightFib(t.left);
      HeightFib(t.right);
      FibSum(H(t.left), H(t.right));
    }
  }

  lemma FibSum(a: nat, b: nat)
    requires -1 <= a - b <= 1
    ensures Fib(Max(a, b) + 3) <= Fib(a + 2) + Fib(b + 2)
  {
    var h := Max(a, b);
    assert Fib(h + 3) == Fib(h + 2) + Fib(h + 1);
    FibMonotone(h + 1, a + 2);
    FibMonotone(h + 1, b + 2);
  }

  lemma {:induction false} FibMonotone(a: nat, b: nat)
    ensures a <= b ==> Fib(a) <= Fib(b)
    decreases b
  {
    if a < b {
      FibMonotone(a, b - 1);
    }
  }

  lemma {:induction false} FibPow2(n: nat)
    ensures Pow2(n / 2) <= Fib(n + 2)
  {
    if n >= 2 {
      FibPow2(n - 2);
      FibMonotone(n, n + 1);
      assert n / 2 == (n - 2) / 2 + 1;
    }
  }

  /** Height is logarithmic in size. */
  lemma HeightLogarithmic(t: Tree)
    requires Good(t)
    ensures H(t) >= 0 && Pow2(H(t) / 2) <= |Items(t)| + 1
  {
    HeightFib(t);
    FibPow2(H(t));
  }
}
