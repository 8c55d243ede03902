/** The AVL tree: insertion, removal and search with the rotations they make. Its meaning is the sequence of
    its items in key order. */
module Avl {
  import opened Prelude

  type Data(!new)

  datatype Tree = Leaf | Node(key: int, data: Data, height: int, left: Tree, right: Tree)

  datatype Item = Item(key: int, data: Data)

  // ----- sorted items

  predicate Sorted(s: seq<Item>) {
    forall i, j | 0 <= i < j < |s| :: s[i].key < s[j].key
  }

  predicate Below(s: seq<Item>, k: int) {
    forall i | 0 <= i < |s| :: s[i].key < k
  }

  predicate Above(s: seq<Item>, k: int) {
    forall i | 0 <= i < |s| :: k < s[i].key
  }

  lemma SortedSplit(a: seq<Item>, x: Item, b: seq<Item>)
    ensures Sorted(a + [x] + b) <==> Sorted(a) && Sorted(b) && Below(a, x.key) && Above(b, x.key)
  {
    var s := a + [x] + b;
    assert s[|a|] == x;
    assert forall i | 0 <= i < |a| :: s[i] == a[i];
    assert forall i | 0 <= i < |b| :: s[|a| + 1 + i] == b[i];
    if Sorted(s) {
      forall i, j | 0 <= i < j < |b| ensures b[i].key < b[j].key {
        assert s[|a| + 1 + i].key < s[|a| + 1 + j].key;
      }
      forall i | 0 <= i < |b| ensures x.key < b[i].key {
        assert s[|a|].key < s[|a| + 1 + i].key;
      }
    }
  }

  lemma Front(a: seq<Item>, x: Item, b: seq<Item>)
    ensures a == [] ==> a + [x] + b == [x] + b && (a + [x] + b)[1..] == b
    ensures a != [] ==> (a + [x] + b)[0] == a[0] && (a + [x] + b)[1..] == a[1..] + [x] + b
  {
  }

  lemma Cons(y: Item, a: seq<Item>, x: Item, b: seq<Item>)
    ensures [y] + (a + [x] + b) == [y] + a + [x] + b
  {
  }

  /** The item of a key. */
  function Get(s: seq<Item>, k: int): Option<Data> {
    if s == [] then None else if s[0].key == k then Some(s[0].data) else Get(s[1..], k)
  }

  lemma {:induction false} GetConcat(a: seq<Item>, b: seq<Item>, k: int)
    ensures Get(a + b, k) == if Get(a, k).Some? then Get(a, k) else Get(b, k)
  {
    if a == [] {
      assert a + b == b;
    } else {
      GetConcat(a[1..], b, k);
      assert (a + b)[1..] == a[1..] + b;
    }
  }

  lemma {:induction false} GetOutside(s: seq<Item>, k: int)
    requires Below(s, k) || Above(s, k)
    ensures Get(s, k).None?
  {
    if s != [] {
      GetOutside(s[1..], k);
    }
  }

  /** Insert an item in order; a key that is there already keeps its data. */
  function Add(s: seq<Item>, k: int, d: Data): seq<Item> {
    if s == [] || k < s[0].key then [Item(k, d)] + s
    else if k == s[0].key then s
    else [s[0]] + Add(s[1..], k, d)
  }

  lemma {:induction false} AddLeft(a: seq<Item>, x: Item, b: seq<Item>, k: int, d: Data)
    requires k < x.key
    ensures Add(a + [x] + b, k, d) == Add(a, k, d) + [x] + b
  {
    Front(a, x, b);
    if a != [] {
      AddLeft(a[1..], x, b, k, d);
      Cons(a[0], Add(a[1..], k, d), x, b);
      Cons(a[0], a[1..], x, b);
    }
  }

  lemma {:induction false} AddRight(a: seq<Item>, x: Item, b: seq<Item>, k: int, d: Data)
    requires k > x.key && Below(a, x.key)
    ensures Add(a + [x] + b, k, d) == a + [x] + Add(b, k, d)
  {
    Front(a, x, b);
    if a != [] {
      AddRight(a[1..], x, b, k, d);
      Cons(a[0], a[1..], x, Add(b, k, d));
      assert a == [a[0]] + a[1..];
    }
  }

  lemma AddHere(a: seq<Item>, x: Item, b: seq<Item>, d: Data)
    requires Below(a, x.key)
    ensures Add(a + [x] + b, x.key, d) == a + [x] + b
  {
    Front(a, x, b);
    if a != [] {
      AddHere(a[1..], x, b, d);
      Cons(a[0], a[1..], x, b);
      assert a == [a[0]] + a[1..];
    }
  }

  // ----- the tree

  function Items(t: Tree): seq<Item> {
    if t.Leaf? then [] else Items(t.left) + [Item(t.key, t.data)] + Items(t.right)
  }

  /** The stored height. */
  function H(t: Tree): int {
    if t.Leaf? then 0 else t.height
  }

  function Max(a: int, b: int): int {
    if a < b then b else a
  }

  function Factor(t: Tree): int {
    if t.Leaf? then 0 else H(t.left) - H(t.right)
  }

  /** Stored heights are the true ones, and the heights of siblings differ by one at most. */
  predicate Shape(t: Tree) {
    t.Node? ==>
      && Shape(t.left) && Shape(t.right)
      && t.height == Max(H(t.left), H(t.right)) + 1 && -1 <= Factor(t) <= 1
  }

  predicate Good(t: Tree) {
    Sorted(Items(t)) && Shape(t)
  }

  lemma HeightSign(t: Tree)
    requires Shape(t)
    ensures H(t) >= 0 && (H(t) == 0 <==> t.Leaf?)
  {
  }

  lemma SortedParts(t: Tree)
    requires t.Node? && Sorted(Items(t))
    ensures Sorted(Items(t.left)) && Sorted(Items(t.right))
    ensures Below(Items(t.left), t.key) && Above(Items(t.right), t.key)
  {
    SortedSplit(Items(t.left), Item(t.key, t.data), Items(t.right));
  }

  /** The search of find. */
  function Find(t: Tree, k: int): Option<Data> {
    if t.Leaf? then None
    else if k > t.key then Find(t.right, k)
    else if k < t.key then Find(t.left, k)
    else Some(t.data)
  }

  /** Searching agrees with the items. */
  lemma {:induction false} FindRight(t: Tree, k: int)
    requires Sorted(Items(t))
    ensures Find(t, k) == Get(Items(t), k)
  {
    if t.Node? {
      var a, x, b := Items(t.left), Item(t.key, t.data), Items(t.right);
      SortedParts(t);
      FindRight(t.left, k);
      FindRight(t.right, k);
      GetConcat(a + [x], b, k);
      GetConcat(a, [x], k);
      if k <= t.key {
        GetOutside(b, k);
      }
      if k >= t.key {
        GetOutside(a, k);
      }
    }
  }

  // ----- rotations

  /** A node with its height brought up to date. */
  function Update(t: Tree): Tree
    requires t.Node?
  {
    t.(height := Max(H(t.left), H(t.right)) + 1)
  }

  function RightRotate(y: Tree): Tree
    requires y.Node? && y.left.Node?
  {
    var x := y.left;
    Update(x.(right := Update(y.(left := x.right))))
  }

  function LeftRotate(x: Tree): Tree
    requires x.Node? && x.right.Node?
  {
    var y := x.right;
    Update(y.(left := Update(x.(right := y.left))))
  }

  lemma Regroup(a: seq<Item>, x: Item, b: seq<Item>, y: Item, c: seq<Item>)
    ensures a + [x] + (b + [y] + c) == (a + [x] + b) + [y] + c
  {
  }

  lemma RotateItems(t: Tree)
    requires t.Node?
    ensures t.left.Node? ==> Items(RightRotate(t)) == Items(t)
    ensures t.right.Node? ==> Items(LeftRotate(t)) == Items(t)
  {
    if t.left.Node? {
      Regroup(Items(t.left.left), Item(t.left.key, t.left.data), Items(t.left.right), Item(t.key, t.data), Items(t.right));
    }
    if t.right.Node? {
      Regroup(Items(t.left), Item(t.key, t.data), Items(t.right.left), Item(t.right.key, t.right.data), Items(t.right.right));
    }
  }

  // ----- insertion

  /** The rebalancing at the end of insert, by the key inserted. A double rotation needs the inner child; a
      tree without it would stay out of balance here. */
  function InsertFix(t: Tree, k: int): Tree
    requires t.Node?
  {
    var f := Factor(t);
    if f > 1 && t.left.Node? && k < t.left.key then RightRotate(t)
    else if f < -1 && t.right.Node? && k > t.right.key then LeftRotate(t)
    else if f > 1 && t.left.Node? && k > t.left.key && t.left.right.Node? then
      RightRotate(t.(left := LeftRotate(t.left)))
    else if f < -1 && t.right.Node? && k < t.right.key && t.right.left.Node? then
      LeftRotate(t.(right := RightRotate(t.right)))
    else t
  }

  function Insert(t: Tree, k: int, d: Data): (r: Tree)
    ensures r.Node?
  {
    if t.Leaf? then Node(k, d, 1, Leaf, Leaf)
    else if k < t.key then InsertFix(Update(t.(left := Insert(t.left, k, d))), k)
    else if k > t.key then InsertFix(Update(t.(right := Insert(t.right, k, d))), k)
    else t
  }

  lemma InsertFixItems(t: Tree, k: int)
    requires t.Node?
    ensures Items(InsertFix(t, k)) == Items(t)
  {
    RotateItems(t);
    if t.left.Node? && t.left.right.Node? {
      RotateItems(t.left);
      RotateItems(t.(left := LeftRotate(t.left)));
    }
    if t.right.Node? && t.right.left.Node? {
      RotateItems(t.right);
      RotateItems(t.(right := RightRotate(t.right)));
    }
  }

  /** Insertion adds the item in its place, and nothing if the key is there. */
  lemma {:induction false} InsertItems(t: Tree, k: int, d: Data)
    requires Sorted(Items(t))
    ensures Items(Insert(t, k, d)) == Add(Items(t), k, d)
  {
    if t.Node? {
      var a, x, b := Items(t.left), Item(t.key, t.data), Items(t.right);
      SortedParts(t);
      InsertItems(t.left, k, d);
      InsertItems(t.right, k, d);
      if k < t.key {
        AddLeft(a, x, b, k, d);
        InsertFixItems(Update(t.(left := Insert(t.left, k, d))), k);
      } else if k > t.key {
        AddRight(a, x, b, k, d);
        InsertFixItems(Update(t.(right := Insert(t.right, k, d))), k);
      } else {
        AddHere(a, x, b, d);
      }
    }
  }

  /** When an insertion makes a node taller it does so on the side of the key, and rotates nothing there. */
  ghost predicate Leans(t: Tree, r: Tree, k: int) {
    t.Node? && r.Node? && H(r) == H(t) + 1 ==>
      r.key == t.key && k != t.key && Factor(r) == if k < t.key then 1 else -1
  }

  lemma {:induction false} InsertShape(t: Tree, k: int, d: Data)
    requires Shape(t)
    ensures var r := Insert(t, k, d);
      Shape(r) && H(t) <= H(r) <= H(t) + 1 && Leans(t, r, k)
  {
    if t.Node? {
      HeightSign(t.left);
      HeightSign(t.right);
      if k < t.key {
        InsertShape(t.left, k, d);
        InsertLeftShape(t, Insert(t.left, k, d), k);
      } else if k > t.key {
        InsertShape(t.right, k, d);
        InsertRightShape(t, Insert(t.right, k, d), k);
      }
    }
  }

  lemma InsertLeftShape(t: Tree, l: Tree, k: int)
    requires Shape(t) && t.Node? && k < t.key && l.Node?
    requires Shape(l) && H(t.left) <= H(l) <= H(t.left) + 1 && Leans(t.left, l, k)
    ensures var r := InsertFix(Update(t.(left := l)), k);
      Shape(r) && H(t) <= H(r) <= H(t) + 1 && Leans(t, r, k)
  {
    HeightSign(t.left);
    HeightSign(t.right);
    HeightSign(l.left);
    HeightSign(l.right);
    if l.right.Node? {
      HeightSign(l.right.left);
      HeightSign(l.right.right);
    }
  }

  lemma InsertRightShape(t: Tree, r: Tree, k: int)
    requires Shape(t) && t.Node? && k > t.key && r.Node?
    requires Shape(r) && H(t.right) <= H(r) <= H(t.right) + 1 && Leans(t.right, r, k)
    ensures var u := InsertFix(Update(t.(right := r)), k);
      Shape(u) && H(t) <= H(u) <= H(t) + 1 && Leans(t, u, k)
  {
    HeightSign(t.left);
    HeightSign(t.right);
    HeightSign(r.left);
    HeightSign(r.right);
    if r.left.Node? {
      HeightSign(r.left.left);
      HeightSign(r.left.right);
    }
  }

  // ----- removal

  /** The key of the leftmost node. */
  function MinKey(t: Tree): int
    requires t.Node?
  {
    if t.left.Leaf? then t.key else MinKey(t.left)
  }

  function RemoveFix(t: Tree): Tree
    requires t.Node?
  {
    var f := Factor(t);
    if f > 1 && t.left.Node? && Factor(t.left) >= 0 then RightRotate(t)
    else if f > 1 && t.left.Node? && t.left.right.Node? then RightRotate(t.(left := LeftRotate(t.left)))
    else if f < -1 && t.right.Node? && Factor(t.right) <= 0 then LeftRotate(t)
    else if f < -1 && t.right.Node? && t.right.left.Node? then LeftRotate(t.(right := RightRotate(t.right)))
    else t
  }

  /** A node with one child is overwritten by that child; one with two takes the key, but not the data, of
      its successor, which is then removed below. */
  function Remove(t: Tree, k: int): Tree {
    if t.Leaf? then Leaf
    else if k < t.key then RemoveFix(Update(t.(left := Remove(t.left, k))))
    else if k > t.key then RemoveFix(Update(t.(right := Remove(t.right, k))))
    else if t.left.Leaf? && t.right.Leaf? then Leaf
    else if t.left.Leaf? then RemoveFix(Update(t.right))
    else if t.right.Leaf? then RemoveFix(Update(t.left))
    else
      var m := MinKey(t.right);
      RemoveFix(Update(t.(key := m, right := Remove(t.right, m))))
  }

  lemma RemoveFixItems(t: Tree)
    requires t.Node?
    ensures Items(RemoveFix(t)) == Items(t)
  {
    RotateItems(t);
    if t.left.Node? && t.left.right.Node? {
      RotateItems(t.left);
      RotateItems(t.(left := LeftRotate(t.left)));
    }
    if t.right.Node? && t.right.left.Node? {
      RotateItems(t.right);
      RotateItems(t.(right := RightRotate(t.right)));
    }
  }

  lemma {:induction false} RemoveShape(t: Tree, k: int)
    requires Shape(t)
    ensures Shape(Remove(t, k)) && H(t) - 1 <= H(Remove(t, k)) <= H(t)
  {
    if t.Node? {
      HeightSign(t.left);
      HeightSign(t.right);
      if k < t.key {
        RemoveShape(t.left, k);
        RemoveFixShape(t, Remove(t.left, k), t.right, t.key);
      } else if k > t.key {
        RemoveShape(t.right, k);
        RemoveFixShape(t, t.left, Remove(t.right, k), t.key);
      } else if t.left.Node? && t.right.Node? {
        var m := MinKey(t.right);
        RemoveShape(t.right, m);
        RemoveFixShape(t, t.left, Remove(t.right, m), m);
      }
    }
  }

  lemma RemoveFixShape(t: Tree, l: Tree, r: Tree, k: int)
    requires Shape(t) && t.Node? && Shape(l) && Shape(r)
    requires (l == t.left && H(t.right) - 1 <= H(r) <= H(t.right)) || (r == t.right && H(t.left) - 1 <= H(l) <= H(t.left))
    ensures var u := RemoveFix(Update(t.(key := k, left := l, right := r)));
      Shape(u) && H(t) - 1 <= H(u) <= H(t)
  {
    HeightSign(l);
    HeightSign(r);
    var v := Update(t.(key := k, left := l, right := r));
    if H(l) > H(r) + 1 {
      TallLeft(v);
    } else if H(r) > H(l) + 1 {
      TallRight(v);
    }
    hide RightRotate, LeftRotate;
  }

  /** A node whose left side is too tall by one is mended, and loses one in height at most. */
  lemma TallLeft(t: Tree)
    requires t.Node? && Shape(t.left) && Shape(t.right) && Factor(t) == 2
    ensures Shape(RemoveFix(t)) && H(t.left) <= H(RemoveFix(t)) <= H(t.left) + 1
  {
    HeightSign(t.right);
    HeightSign(t.left);
    HeightSign(t.left.left);
    HeightSign(t.left.right);
    if t.left.right.Node? {
      HeightSign(t.left.right.left);
      HeightSign(t.left.right.right);
    }
  }

  lemma TallRight(t: Tree)
    requires t.Node? && Shape(t.left) && Shape(t.right) && Factor(t) == -2
    ensures Shape(RemoveFix(t)) && H(t.right) <= H(RemoveFix(t)) <= H(t.right) + 1
  {
    HeightSign(t.left);
    HeightSign(t.right);
    HeightSign(t.right.left);
    HeightSign(t.right.right);
    if t.right.left.Node? {
      HeightSign(t.right.left.left);
      HeightSign(t.right.left.right);
    }
  }

  // ----- what removal does to the items

  /** The item of key `k` is gone. */
  function Del(s: seq<Item>, k: int): seq<Item> {
    if s == [] then [] else if s[0].key == k then s[1..] else [s[0]] + Del(s[1..], k)
  }

  /** The item of key `k` is gone, and the next key has its data. */
  function Shifted(s: seq<Item>, k: int): seq<Item> {
    if |s| < 2 then s
    else if s[0].key == k then [Item(s[1].key, s[0].data)] + s[2..]
    else [s[0]] + Shifted(s[1..], k)
  }

  /** Key `k` is there, with another one after it. */
  predicate HasNext(s: seq<Item>, k: int) {
    |s| >= 2 && (s[0].key == k || HasNext(s[1..], k))
  }

  /** The node of key `k` has two children. */
  predicate TwoKids(t: Tree, k: int) {
    t.Node? &&
    if k < t.key then TwoKids(t.left, k)
    else if k > t.key then TwoKids(t.right, k)
    else t.left.Node? && t.right.Node?
  }

  lemma {:induction false} DelLeft(a: seq<Item>, x: Item, b: seq<Item>, k: int)
    requires k < x.key && Above(b, x.key)
    ensures Del(a + [x] + b, k) == Del(a, k) + [x] + b
  {
    Front(a, x, b);
    if a == [] {
      DelOutside(b, k);
    } else {
      DelLeft(a[1..], x, b, k);
      Cons(a[0], Del(a[1..], k), x, b);
    }
  }

  lemma {:induction false} DelOutside(s: seq<Item>, k: int)
    requires Below(s, k) || Above(s, k)
    ensures Del(s, k) == s
  {
    if s != [] {
      DelOutside(s[1..], k);
    }
  }

  lemma {:induction false} DelRight(a: seq<Item>, x: Item, b: seq<Item>, k: int)
    requires k > x.key && Below(a, x.key)
    ensures Del(a + [x] + b, k) == a + [x] + Del(b, k)
  {
    Front(a, x, b);
    if a != [] {
      DelRight(a[1..], x, b, k);
      Cons(a[0], a[1..], x, Del(b, k));
      assert a == [a[0]] + a[1..];
    }
  }

  lemma {:induction false} DelHere(a: seq<Item>, x: Item, b: seq<Item>)
    requires Below(a, x.key)
    ensures Del(a + [x] + b, x.key) == a + b
  {
    Front(a, x, b);
    if a != [] {
      DelHere(a[1..], x, b);
      assert a + b == [a[0]] + (a[1..] + b);
    }
  }

  lemma {:induction false} ShiftedHere(a: seq<Item>, x: Item, b: seq<Item>)
    requires Below(a, x.key) && b != []
    ensures HasNext(a + [x] + b, x.key)
    ensures Shifted(a + [x] + b, x.key) == a + [Item(b[0].key, x.data)] + b[1..]
  {
    var s := a + [x] + b;
    Front(a, x, b);
    if a == [] {
      assert s[2..] == b[1..];
    } else {
      ShiftedHere(a[1..], x, b);
      Cons(a[0], a[1..], Item(b[0].key, x.data), b[1..]);
      assert a == [a[0]] + a[1..];
    }
  }

  lemma {:induction false} ShiftedLeft(a: seq<Item>, x: Item, b: seq<Item>, k: int)
    requires HasNext(a, k)
    ensures Shifted(a + [x] + b, k) == Shifted(a, k) + [x] + b && HasNext(a + [x] + b, k)
  {
    var s := a + [x] + b;
    Front(a, x, b);
    if a[0].key == k {
      assert s[2..] == a[2..] + [x] + b;
    } else {
      ShiftedLeft(a[1..], x, b, k);
      Cons(a[0], Shifted(a[1..], k), x, b);
    }
  }

  lemma {:induction false} ShiftedRight(a: seq<Item>, x: Item, b: seq<Item>, k: int)
    requires k > x.key && Below(a, x.key) && HasNext(b, k)
    ensures Shifted(a + [x] + b, k) == a + [x] + Shifted(b, k) && HasNext(a + [x] + b, k)
  {
    Front(a, x, b);
    if a != [] {
      ShiftedRight(a[1..], x, b, k);
      Cons(a[0], a[1..], x, Shifted(b, k));
      assert a == [a[0]] + a[1..];
    }
  }

  lemma {:induction false} MinFirst(t: Tree)
    requires t.Node?
    ensures Items(t) != [] && Items(t)[0].key == MinKey(t)
  {
    if t.left.Node? {
      MinFirst(t.left);
    }
  }

  lemma {:induction false} MinHasNoLeft(t: Tree)
    requires t.Node? && Sorted(Items(t))
    ensures !TwoKids(t, MinKey(t))
  {
    if t.left.Node? {
      SortedParts(t);
      MinFirst(t.left);
      MinHasNoLeft(t.left);
    }
  }

  /** Removal deletes exactly the given key. The data of the other keys stays with them, but for a node with
      two children: there the next key is left with the data of the one removed. */
  lemma {:induction false} RemoveItems(t: Tree, k: int)
    requires Sorted(Items(t))
    ensures TwoKids(t, k) ==> HasNext(Items(t), k)
    ensures Items(Remove(t, k)) == if TwoKids(t, k) then Shifted(Items(t), k) else Del(Items(t), k)
    decreases t
  {
    if t.Node? {
      SortedParts(t);
      var a, x, b := Items(t.left), Item(t.key, t.data), Items(t.right);
      if k < t.key {
        RemoveItems(t.left, k);
        RemoveFixItems(Update(t.(left := Remove(t.left, k))));
        DelLeft(a, x, b, k);
        if TwoKids(t, k) {
          ShiftedLeft(a, x, b, k);
        }
      } else if k > t.key {
        RemoveItems(t.right, k);
        RemoveFixItems(Update(t.(right := Remove(t.right, k))));
        DelRight(a, x, b, k);
        if TwoKids(t, k) {
          ShiftedRight(a, x, b, k);
        }
      } else {
        DelHere(a, x, b);
        RemoveHere(t);
        if TwoKids(t, k) {
          ShiftedHere(a, x, b);
        }
      }
    }
  }

  lemma RemoveHere(t: Tree)
    requires t.Node? && Sorted(Items(t))
    ensures t.left.Node? && t.right.Node? ==>
      Items(t.right) != [] &&
      Items(Remove(t, t.key)) == Items(t.left) + [Item(Items(t.right)[0].key, t.data)] + Items(t.right)[1..]
    ensures t.left.Leaf? || t.right.Leaf? ==> Items(Remove(t, t.key)) == Items(t.left) + Items(t.right)
    decreases t, 0
  {
    SortedParts(t);
    if t.left.Node? && t.right.Node? {
      var m := MinKey(t.right);
      MinFirst(t.right);
      MinHasNoLeft(t.right);
      RemoveItems(t.right, m);
      RemoveFixItems(Update(t.(key := m, right := Remove(t.right, m))));
    } else if t.left.Node? {
      RemoveFixItems(Update(t.left));
    } else if t.right.Node? {
      RemoveFixItems(Update(t.right));
    }
  }
}
