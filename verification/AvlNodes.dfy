/** The AVL code on nodes in memory, linked by address and updated in place. Address zero is null. */
module AvlNodes {
  import opened Avl
  import opened AvlTree
  import opened Prelude

  datatype Cell = Cell(key: int, data: Data, height: int, left: nat, right: nat)

  type Memory = map<nat, Cell>

  /** The cells of the tree `t` rooted at `p`. */
  ghost function Cells(m: Memory, p: nat, t: Tree): set<nat>
    decreases t
  {
    if t.Leaf? || p !in m then {} else {p} + Cells(m, m[p].left, t.left) + Cells(m, m[p].right, t.right)
  }

  /** At `p` the memory holds `t`, each node in a cell of its own. */
  ghost predicate Rep(m: Memory, p: nat, t: Tree)
    decreases t
  {
    if t.Leaf? then p == 0
    else
      && p != 0 && p in m && m[p].key == t.key && m[p].data == t.data && m[p].height == t.height
      && Rep(m, m[p].left, t.left) && Rep(m, m[p].right, t.right)
      && p !in Cells(m, m[p].left, t.left) && p !in Cells(m, m[p].right, t.right)
      && Cells(m, m[p].left, t.left) !! Cells(m, m[p].right, t.right)
  }

  /** Two memories agree on some cells. */
  ghost predicate Agree(m: Memory, m': Memory, cells: set<nat>) {
    forall q | q in cells :: q in m && q in m' && m'[q] == m[q]
  }

  lemma {:induction false} Frame(m: Memory, m': Memory, p: nat, t: Tree)
    requires Rep(m, p, t) && Agree(m, m', Cells(m, p, t))
    ensures Rep(m', p, t) && Cells(m', p, t) == Cells(m, p, t)
    decreases t
  {
    if t.Node? {
      Frame(m, m', m[p].left, t.left);
      Frame(m, m', m[p].right, t.right);
    }
  }

  lemma {:induction false} CellsIn(m: Memory, p: nat, t: Tree)
    requires Rep(m, p, t)
    ensures Cells(m, p, t) <= m.Keys && 0 !in Cells(m, p, t) && (t.Node? ==> p in Cells(m, p, t))
    decreases t
  {
    if t.Node? {
      CellsIn(m, m[p].left, t.left);
      CellsIn(m, m[p].right, t.right);
    }
  }

  function Height(m: Memory, p: nat): int {
    if p in m then m[p].height else 0
  }

  lemma HeightRep(m: Memory, p: nat, t: Tree)
    requires Rep(m, p, t) && 0 !in m
    ensures Height(m, p) == H(t)
  {
  }

  /** Give a node its children, and the height that goes with them. */
  function Link(m: Memory, p: nat, l: nat, r: nat): Memory
    requires p in m
  {
    m[p := m[p].(left := l, right := r, height := Max(Height(m, l), Height(m, r)) + 1)]
  }

  lemma LinkRep(m: Memory, p: nat, l: nat, r: nat, tl: Tree, tr: Tree)
    requires 0 !in m && p in m && Rep(m, l, tl) && Rep(m, r, tr)
    requires p !in Cells(m, l, tl) && p !in Cells(m, r, tr) && Cells(m, l, tl) !! Cells(m, r, tr)
    ensures var m', t := Link(m, p, l, r), Update(Node(m[p].key, m[p].data, 0, tl, tr));
      && Rep(m', p, t) && Cells(m', p, t) == {p} + Cells(m, l, tl) + Cells(m, r, tr)
      && 0 !in m' && m'.Keys == m.Keys
  {
    var m' := Link(m, p, l, r);
    CellsIn(m, l, tl);
    CellsIn(m, r, tr);
    Frame(m, m', l, tl);
    Frame(m, m', r, tr);
    HeightRep(m, l, tl);
    HeightRep(m, r, tr);
  }

  /** `m'` differs from `m` on `cells` only, and `t` at `p` is made of them. */
  ghost predicate Became(m: Memory, m': Memory, p: nat, t: Tree, cells: set<nat>) {
    && Rep(m', p, t) && Cells(m', p, t) == cells && 0 !in m' && m'.Keys == m.Keys
    && forall q | q in m && q !in cells :: m'[q] == m[q]
  }

  /** What a node is made of. */
  lemma NodeParts(m: Memory, p: nat, t: Tree)
    requires Rep(m, p, t) && t.Node?
    ensures p != 0 && p in m && m[p].key == t.key && m[p].data == t.data && m[p].height == t.height
    ensures var l, r := m[p].left, m[p].right;
      && Rep(m, l, t.left) && Rep(m, r, t.right) && p !in Cells(m, l, t.left) && p !in Cells(m, r, t.right)
      && Cells(m, l, t.left) !! Cells(m, r, t.right)
      && Cells(m, p, t) == {p} + Cells(m, l, t.left) + Cells(m, r, t.right)
      && Cells(m, l, t.left) <= m.Keys && Cells(m, r, t.right) <= m.Keys
      && (t.left.Node? ==> l in Cells(m, l, t.left)) && (t.right.Node? ==> r in Cells(m, r, t.right))
  {
    CellsIn(m, m[p].left, t.left);
    CellsIn(m, m[p].right, t.right);
  }

  function RotateRight(m: Memory, y: nat): Memory
    requires y in m && m[y].left in m && m[y].left != y
  {
    var x := m[y].left;
    var m1 := Link(m, y, m[x].right, m[y].right);
    Link(m1, x, m[x].left, y)
  }

  lemma RotateRightRep(m: Memory, y: nat, t: Tree)
    requires 0 !in m && Rep(m, y, t) && t.Node? && t.left.Node?
    ensures m[y].left in m && m[y].left != y
    ensures Became(m, RotateRight(m, y), m[y].left, RightRotate(t), Cells(m, y, t))
  {
    hide Rep, Cells, Height, Max;
    NodeParts(m, y, t);
    var x := m[y].left;
    NodeParts(m, x, t.left);
    var a, b, c := m[x].left, m[x].right, m[y].right;
    LinkRep(m, y, b, c, t.left.right, t.right);
    var m1 := Link(m, y, b, c);
    Frame(m, m1, a, t.left.left);
    LinkRep(m1, x, a, y, t.left.left, Update(t.(left := t.left.right)));
  }

  function RotateLeft(m: Memory, x: nat): Memory
    requires x in m && m[x].right in m && m[x].right != x
  {
    var y := m[x].right;
    var m1 := Link(m, x, m[x].left, m[y].left);
    Link(m1, y, x, m[y].right)
  }

  lemma RotateLeftRep(m: Memory, x: nat, t: Tree)
    requires 0 !in m && Rep(m, x, t) && t.Node? && t.right.Node?
    ensures m[x].right in m && m[x].right != x
    ensures Became(m, RotateLeft(m, x), m[x].right, LeftRotate(t), Cells(m, x, t))
  {
    hide Rep, Cells, Height, Max;
    NodeParts(m, x, t);
    var y := m[x].right;
    NodeParts(m, y, t.right);
    var a, b, c := m[x].left, m[y].left, m[y].right;
    LinkRep(m, x, a, b, t.left, t.right.left);
    var m1 := Link(m, x, a, b);
    Frame(m, m1, c, t.right.right);
    LinkRep(m1, y, x, c, Update(t.(right := t.right.left)), t.right.right);
  }

  // ----- double rotations

  /** Putting a rotated subtree back in its place. */
  lemma PutLeft(m: Memory, m1: Memory, p: nat, t: Tree, l: nat, tl: Tree)
    requires 0 !in m && Rep(m, p, t) && t.Node?
    requires Became(m, m1, l, tl, Cells(m, m[p].left, t.left))
    ensures p in m1 && Became(m, m1[p := m1[p].(left := l)], p, t.(left := tl), Cells(m, p, t))
  {
    CellsIn(m, p, t);
    CellsIn(m, m[p].right, t.right);
    var m2 := m1[p := m1[p].(left := l)];
    Frame(m, m2, m[p].right, t.right);
    Frame(m1, m2, l, tl);
  }

  lemma PutRight(m: Memory, m1: Memory, p: nat, t: Tree, r: nat, tr: Tree)
    requires 0 !in m && Rep(m, p, t) && t.Node?
    requires Became(m, m1, r, tr, Cells(m, m[p].right, t.right))
    ensures p in m1 && Became(m, m1[p := m1[p].(right := r)], p, t.(right := tr), Cells(m, p, t))
  {
    CellsIn(m, p, t);
    CellsIn(m, m[p].left, t.left);
    var m2 := m1[p := m1[p].(right := r)];
    Frame(m, m2, m[p].left, t.left);
    Frame(m1, m2, r, tr);
  }

  lemma BecameTwice(m: Memory, m1: Memory, m2: Memory, p: nat, t: Tree, q: nat, u: Tree, cells: set<nat>)
    requires Became(m, m1, p, t, cells) && Became(m1, m2, q, u, Cells(m1, p, t))
    ensures Became(m, m2, q, u, cells)
  {
  }

  /** The double rotations need the inner grandchild. */
  predicate Mendable(t: Tree)
    requires t.Node?
  {
    && (Factor(t) > 1 ==> t.left.Node? && (Factor(t.left) < 0 ==> t.left.right.Node?))
    && (Factor(t) < -1 ==> t.right.Node? && (Factor(t.right) > 0 ==> t.right.left.Node?))
  }

  /** After an insertion the side of the key is the tall one. */
  predicate InsertMendable(t: Tree, k: int)
    requires t.Node?
  {
    && (Factor(t) > 1 && t.left.Node? && k > t.left.key ==> t.left.right.Node?)
    && (Factor(t) < -1 && t.right.Node? && k < t.right.key ==> t.right.left.Node?)
  }

  lemma InsertLeftMendable(t: Tree, l: Tree, k: int)
    requires Shape(t) && t.Node? && k < t.key && l.Node?
    requires Shape(l) && H(t.left) <= H(l) <= H(t.left) + 1 && Leans(t.left, l, k)
    ensures InsertMendable(Update(t.(left := l)), k)
  {
    HeightSign(t.left);
    HeightSign(t.right);
    HeightSign(l.left);
    HeightSign(l.right);
  }

  lemma InsertRightMendable(t: Tree, r: Tree, k: int)
    requires Shape(t) && t.Node? && k > t.key && r.Node?
    requires Shape(r) && H(t.right) <= H(r) <= H(t.right) + 1 && Leans(t.right, r, k)
    ensures InsertMendable(Update(t.(right := r)), k)
  {
    HeightSign(t.left);
    HeightSign(t.right);
    HeightSign(r.left);
    HeightSign(r.right);
  }

  // ----- the class

  /** From `m` to `m'` the tree on `cells` became `t` at `p`: its cells are old ones of its own or new ones,
      and no other cell has changed. New cells are numbered from `n`. */
  ghost predicate Moved(m: Memory, n: nat, m': Memory, n': nat, p: nat, t: Tree, cells: set<nat>) {
    && Rep(m', p, t) && Bounded(m', n') && n <= n'
    && (forall q | q in m && q !in cells :: q in m' && m'[q] == m[q])
    && (forall q | q in Cells(m', p, t) :: q in cells || q >= n)
  }

  ghost predicate Bounded(m: Memory, n: nat) {
    0 !in m && forall q | q in m :: q < n
  }

  lemma MovedBecame(m: Memory, n: nat, m1: Memory, n1: nat, m2: Memory, p: nat, t: Tree, q: nat, u: Tree, cells: set<nat>)
    requires Moved(m, n, m1, n1, p, t, cells) && Became(m1, m2, q, u, Cells(m1, p, t)) && Bounded(m, n)
    ensures Moved(m, n, m2, n1, q, u, cells)
  {
    forall c | c in m && c !in cells ensures c in m2 && m2[c] == m[c] {
      assert c < n && c !in Cells(m1, p, t);
    }
    hide Rep, Cells;
  }

  /** After the left subtree has moved, the node is linked to it again. */
  lemma RelinkLeft(m: Memory, n: nat, m1: Memory, n1: nat, p: nat, t: Tree, l: nat, tl: Tree)
    requires Bounded(m, n) && Rep(m, p, t) && t.Node?
    requires Moved(m, n, m1, n1, l, tl, Cells(m, m[p].left, t.left))
    ensures p in m1 && m1[p] == m[p]
    ensures Moved(m, n, Link(m1, p, l, m[p].right), n1, p, Update(t.(left := tl)), Cells(m, p, t))
  {
    CellsIn(m, p, t);
    var r := m[p].right;
    CellsIn(m, r, t.right);
    CellsIn(m1, l, tl);
    Frame(m, m1, r, t.right);
    LinkRep(m1, p, l, r, tl, t.right);
  }

  lemma RelinkRight(m: Memory, n: nat, m1: Memory, n1: nat, p: nat, t: Tree, r: nat, tr: Tree)
    requires Bounded(m, n) && Rep(m, p, t) && t.Node?
    requires Moved(m, n, m1, n1, r, tr, Cells(m, m[p].right, t.right))
    ensures p in m1 && m1[p] == m[p]
    ensures Moved(m, n, Link(m1, p, m[p].left, r), n1, p, Update(t.(right := tr)), Cells(m, p, t))
  {
    CellsIn(m, p, t);
    var l := m[p].left;
    CellsIn(m, l, t.left);
    CellsIn(m1, r, tr);
    Frame(m, m1, l, t.left);
    LinkRep(m1, p, l, r, t.left, tr);
  }

  lemma GoodKidsMendable(t: Tree)
    requires t.Node? && Shape(t.left) && Shape(t.right)
    ensures Mendable(t)
  {
    HeightSign(t.left);
    HeightSign(t.right);
    if t.left.Node? {
      HeightSign(t.left.left);
      HeightSign(t.left.right);
    }
    if t.right.Node? {
      HeightSign(t.right.left);
      HeightSign(t.right.right);
    }
  }

  /** A node with one child `v` is overwritten by it, and the cell of the child is freed. */
  function TakeOver(m: Memory, p: nat, v: nat): Memory
    requires p in m && v in m
  {
    var m1 := m[p := m[v]];
    map q | q in m1 && q != v :: m1[q]
  }

  lemma OnlyChild(m: Memory, p: nat, t: Tree, v: nat, tv: Tree)
    requires Rep(m, p, t) && t.Node? && tv.Node?
    requires (v == m[p].left && tv == t.left && t.right.Leaf?) || (v == m[p].right && tv == t.right && t.left.Leaf?)
    ensures p in m && v in m && v != p && Rep(m, v, tv)
    ensures p !in Cells(m, v, tv) && Cells(m, p, t) == {p} + Cells(m, v, tv)
  {
    CellsIn(m, v, tv);
  }

  lemma TakeOverMoved(m: Memory, n: nat, p: nat, t: Tree, v: nat, tv: Tree)
    requires Bounded(m, n) && Rep(m, p, t) && t.Node? && tv.Node?
    requires (v == m[p].left && tv == t.left && t.right.Leaf?) || (v == m[p].right && tv == t.right && t.left.Leaf?)
    ensures v in m && p != v
    ensures var m' := TakeOver(m, p, v);
      && Moved(m, n, Link(m', p, m'[p].left, m'[p].right), n, p, Update(tv), Cells(m, p, t))
  {
    hide Rep, Cells, Height, Max;
    OnlyChild(m, p, t, v, tv);
    NodeParts(m, v, tv);
    var m' := TakeOver(m, p, v);
    var l, r := m[v].left, m[v].right;
    assert Agree(m, m', Cells(m, l, tv.left)) && Agree(m, m', Cells(m, r, tv.right));
    Frame(m, m', l, tv.left);
    Frame(m, m', r, tv.right);
    LinkRep(m', p, l, r, tv.left, tv.right);
  }

  /** Taking over the key of the successor. */
  lemma SetKeyRep(m: Memory, p: nat, t: Tree, k: int)
    requires Rep(m, p, t) && t.Node?
    ensures var m1 := m[p := m[p].(key := k)];
      && Rep(m1, p, t.(key := k)) && Cells(m1, p, t.(key := k)) == Cells(m, p, t)
      && Rep(m1, m[p].right, t.right) && Cells(m1, m[p].right, t.right) == Cells(m, m[p].right, t.right)
  {
    var m1 := m[p := m[p].(key := k)];
    CellsIn(m, m[p].left, t.left);
    CellsIn(m, m[p].right, t.right);
    Frame(m, m1, m[p].left, t.left);
    Frame(m, m1, m[p].right, t.right);
  }

  lemma MovedFrom(m: Memory, m1: Memory, n: nat, m2: Memory, n2: nat, p: nat, t: Tree, cells: set<nat>)
    requires Moved(m1, n, m2, n2, p, t, cells) && m1.Keys == m.Keys
    requires forall q | q in m && q !in cells :: m1[q] == m[q]
    ensures Moved(m, n, m2, n2, p, t, cells)
  {
    hide Rep, Cells;
  }

  class AvlMap {
    var nodes: Memory
    var next: nat
    var root: nat
    var size: nat
    ghost var tree: Tree

    /** The nodes form a good tree, and the size is the number of its keys. */
    ghost predicate Valid()
      reads this
    {
      next > 0 && Bounded(nodes, next) && Rep(nodes, root, tree) && Good(tree) && size == |Items(tree)|
    }

    constructor ()
      ensures Valid() && tree == Leaf
    {
      nodes, next, root, size, tree := map[], 1, 0, 0, Leaf;
    }

    method RightRotate(y: nat, ghost t: Tree) returns (x: nat)
      requires 0 !in nodes && Rep(nodes, y, t) && t.Node? && t.left.Node?
      modifies this`nodes
      ensures Became(old(nodes), nodes, x, Avl.RightRotate(t), Cells(old(nodes), y, t))
    {
      RotateRightRep(nodes, y, t);
      x := nodes[y].left;
      var t2 := nodes[x].right;
      nodes := Link(nodes, y, t2, nodes[y].right);
      nodes := Link(nodes, x, nodes[x].left, y);
    }

    method LeftRotate(x: nat, ghost t: Tree) returns (y: nat)
      requires 0 !in nodes && Rep(nodes, x, t) && t.Node? && t.right.Node?
      modifies this`nodes
      ensures Became(old(nodes), nodes, y, Avl.LeftRotate(t), Cells(old(nodes), x, t))
    {
      RotateLeftRep(nodes, x, t);
      y := nodes[x].right;
      var t2 := nodes[y].left;
      nodes := Link(nodes, x, nodes[x].left, t2);
      nodes := Link(nodes, y, x, nodes[y].right);
    }

    /** Rotate the left child to the left, then the node to the right. */
    method LeftRight(p: nat, ghost t: Tree) returns (r: nat)
      requires 0 !in nodes && Rep(nodes, p, t) && t.Node? && t.left.Node? && t.left.right.Node?
      modifies this`nodes
      ensures Became(old(nodes), nodes, r, Avl.RightRotate(t.(left := Avl.LeftRotate(t.left))), Cells(old(nodes), p, t))
    {
      ghost var m := nodes;
      var l := LeftRotate(nodes[p].left, t.left);
      PutLeft(m, nodes, p, t, l, Avl.LeftRotate(t.left));
      nodes := nodes[p := nodes[p].(left := l)];
      ghost var m1, u := nodes, t.(left := Avl.LeftRotate(t.left));
      r := RightRotate(p, u);
      BecameTwice(m, m1, nodes, p, u, r, Avl.RightRotate(u), Cells(m, p, t));
    }

    method RightLeft(p: nat, ghost t: Tree) returns (r: nat)
      requires 0 !in nodes && Rep(nodes, p, t) && t.Node? && t.right.Node? && t.right.left.Node?
      modifies this`nodes
      ensures Became(old(nodes), nodes, r, Avl.LeftRotate(t.(right := Avl.RightRotate(t.right))), Cells(old(nodes), p, t))
    {
      ghost var m := nodes;
      var c := RightRotate(nodes[p].right, t.right);
      PutRight(m, nodes, p, t, c, Avl.RightRotate(t.right));
      nodes := nodes[p := nodes[p].(right := c)];
      ghost var m1, u := nodes, t.(right := Avl.RightRotate(t.right));
      r := LeftRotate(p, u);
      BecameTwice(m, m1, nodes, p, u, r, Avl.LeftRotate(u), Cells(m, p, t));
    }

    /** The rebalancing of insert. */
    method MendInsert(p: nat, ghost t: Tree, k: int) returns (r: nat)
      requires 0 !in nodes && Rep(nodes, p, t) && t.Node? && InsertMendable(t, k)
      modifies this`nodes
      ensures Became(old(nodes), nodes, r, InsertFix(t, k), Cells(old(nodes), p, t))
    {
      var l, c := nodes[p].left, nodes[p].right;
      HeightRep(nodes, l, t.left);
      HeightRep(nodes, c, t.right);
      var factor := Height(nodes, l) - Height(nodes, c);
      if factor > 1 && l != 0 && k < nodes[l].key {
        r := RightRotate(p, t);
      } else if factor < -1 && c != 0 && k > nodes[c].key {
        r := LeftRotate(p, t);
      } else if factor > 1 && l != 0 && k > nodes[l].key {
        r := LeftRight(p, t);
      } else if factor < -1 && c != 0 && k < nodes[c].key {
        r := RightLeft(p, t);
      } else {
        r := p;
      }
    }

    method InsertAt(p: nat, ghost t: Tree, k: int, d: Data) returns (r: nat)
      requires next > 0 && Bounded(nodes, next) && Rep(nodes, p, t) && Shape(t)
      modifies this`nodes, this`next, this`size
      ensures Moved(old(nodes), old(next), nodes, next, r, Avl.Insert(t, k, d), Cells(old(nodes), p, t))
      ensures size - |Items(Avl.Insert(t, k, d))| == old(size) - |Items(t)|
      decreases t
    {
      ghost var m, n := nodes, next;
      if p == 0 {
        r := next;
        nodes := nodes[r := Cell(k, d, 1, 0, 0)];
        next := next + 1;
        size := size + 1;
        return;
      }
      if k < nodes[p].key {
        InsertShape(t.left, k, d);
        ghost var tl := Avl.Insert(t.left, k, d);
        var l := InsertAt(nodes[p].left, t.left, k, d);
        RelinkLeft(m, n, nodes, next, p, t, l, tl);
        nodes := Link(nodes, p, l, nodes[p].right);
        InsertLeftMendable(t, tl, k);
        r := Finish(m, n, p, Update(t.(left := tl)), k, Cells(m, p, t));
      } else if k > nodes[p].key {
        InsertShape(t.right, k, d);
        ghost var tr := Avl.Insert(t.right, k, d);
        var c := InsertAt(nodes[p].right, t.right, k, d);
        RelinkRight(m, n, nodes, next, p, t, c, tr);
        nodes := Link(nodes, p, nodes[p].left, c);
        InsertRightMendable(t, tr, k);
        r := Finish(m, n, p, Update(t.(right := tr)), k, Cells(m, p, t));
      } else {
        r := p;
      }
    }

    method Finish(ghost m: Memory, ghost n: nat, p: nat, ghost u: Tree, k: int, ghost cells: set<nat>) returns (r: nat)
      requires Bounded(m, n) && Moved(m, n, nodes, next, p, u, cells) && u.Node? && InsertMendable(u, k)
      modifies this`nodes
      ensures Moved(m, n, nodes, next, r, InsertFix(u, k), cells)
      ensures |Items(InsertFix(u, k))| == |Items(u)|
    {
      ghost var m1 := nodes;
      r := MendInsert(p, u, k);
      MovedBecame(m, n, m1, next, nodes, p, u, r, InsertFix(u, k), cells);
      InsertFixItems(u, k);
    }

    /** The rebalancing of remove. */
    method MendRemove(p: nat, ghost t: Tree) returns (r: nat)
      requires 0 !in nodes && Rep(nodes, p, t) && t.Node? && Mendable(t)
      modifies this`nodes
      ensures Became(old(nodes), nodes, r, RemoveFix(t), Cells(old(nodes), p, t))
    {
      var l, c := nodes[p].left, nodes[p].right;
      HeightRep(nodes, l, t.left);
      HeightRep(nodes, c, t.right);
      var factor := Height(nodes, l) - Height(nodes, c);
      if factor > 1 {
        var f := BalanceFactor(l, t.left);
        if f >= 0 {
          r := RightRotate(p, t);
        } else {
          r := LeftRight(p, t);
        }
      } else if factor < -1 {
        var f := BalanceFactor(c, t.right);
        if f <= 0 {
          r := LeftRotate(p, t);
        } else {
          r := RightLeft(p, t);
        }
      } else {
        r := p;
      }
    }

    method BalanceFactor(p: nat, ghost t: Tree) returns (f: int)
      requires 0 !in nodes && Rep(nodes, p, t)
      ensures f == Factor(t)
    {
      if p == 0 {
        return 0;
      }
      HeightRep(nodes, nodes[p].left, t.left);
      HeightRep(nodes, nodes[p].right, t.right);
      f := Height(nodes, nodes[p].left) - Height(nodes, nodes[p].right);
    }

    method FinishRemove(ghost m: Memory, ghost n: nat, p: nat, ghost u: Tree, ghost cells: set<nat>) returns (r: nat)
      requires Bounded(m, n) && Moved(m, n, nodes, next, p, u, cells) && u.Node? && Shape(u.left) && Shape(u.right)
      modifies this`nodes
      ensures Moved(m, n, nodes, next, r, RemoveFix(u), cells)
      ensures |Items(RemoveFix(u))| == |Items(u)|
    {
      ghost var m1 := nodes;
      GoodKidsMendable(u);
      r := MendRemove(p, u);
      MovedBecame(m, n, m1, next, nodes, p, u, r, RemoveFix(u), cells);
      RemoveFixItems(u);
    }

    /** min_node. */
    method MinNode(p: nat, ghost t: Tree) returns (q: nat)
      requires Rep(nodes, p, t) && t.Node?
      ensures q in nodes && nodes[q].key == MinKey(t)
    {
      q := p;
      ghost var u := t;
      while nodes[q].left != 0
        invariant Rep(nodes, q, u) && u.Node? && MinKey(u) == MinKey(t)
        decreases u
      {
        q, u := nodes[q].left, u.left;
      }
    }

    method RemoveAt(p: nat, ghost t: Tree, k: int) returns (r: nat)
      requires Bounded(nodes, next) && Rep(nodes, p, t) && Shape(t) && size >= |Items(t)|
      modifies this`nodes, this`size
      ensures Moved(old(nodes), old(next), nodes, next, r, Avl.Remove(t, k), Cells(old(nodes), p, t))
      ensures size - |Items(Avl.Remove(t, k))| == old(size) - |Items(t)|
      decreases t
    {
      ghost var m := nodes;
      if p == 0 {
        return 0;
      }
      if k < nodes[p].key {
        RemoveShape(t.left, k);
        ghost var tl := Avl.Remove(t.left, k);
        var l := RemoveAt(nodes[p].left, t.left, k);
        RelinkLeft(m, next, nodes, next, p, t, l, tl);
        nodes := Link(nodes, p, l, nodes[p].right);
        r := FinishRemove(m, next, p, Update(t.(left := tl)), Cells(m, p, t));
      } else if k > nodes[p].key {
        RemoveShape(t.right, k);
        ghost var tr := Avl.Remove(t.right, k);
        var c := RemoveAt(nodes[p].right, t.right, k);
        RelinkRight(m, next, nodes, next, p, t, c, tr);
        nodes := Link(nodes, p, nodes[p].left, c);
        r := FinishRemove(m, next, p, Update(t.(right := tr)), Cells(m, p, t));
      } else if nodes[p].left == 0 || nodes[p].right == 0 {
        r := RemoveOuter(p, t);
      } else {
        r := RemoveInner(p, t);
      }
    }

    /** A node with one child or none. */
    method RemoveOuter(p: nat, ghost t: Tree) returns (r: nat)
      requires Bounded(nodes, next) && Rep(nodes, p, t) && Shape(t) && size >= |Items(t)|
      requires t.Node? && (t.left.Leaf? || t.right.Leaf?)
      modifies this`nodes, this`size
      ensures Moved(old(nodes), old(next), nodes, next, r, Avl.Remove(t, t.key), Cells(old(nodes), p, t))
      ensures size - |Items(Avl.Remove(t, t.key))| == old(size) - |Items(t)|
    {
      ghost var m := nodes;
      var v := if nodes[p].left != 0 then nodes[p].left else nodes[p].right;
      size := size - 1;
      if v == 0 {
        nodes := map q | q in nodes && q != p :: nodes[q];
        return 0;
      }
      ghost var tv := if t.left.Node? then t.left else t.right;
      TakeOverMoved(m, next, p, t, v, tv);
      nodes := TakeOver(nodes, p, v);
      nodes := Link(nodes, p, nodes[p].left, nodes[p].right);
      r := FinishRemove(m, next, p, Update(tv), Cells(m, p, t));
    }

    /** A node with two children. */
    method RemoveInner(p: nat, ghost t: Tree) returns (r: nat)
      requires Bounded(nodes, next) && Rep(nodes, p, t) && Shape(t) && size >= |Items(t)|
      requires t.Node? && t.left.Node? && t.right.Node?
      modifies this`nodes, this`size
      ensures Moved(old(nodes), old(next), nodes, next, r, Avl.Remove(t, t.key), Cells(old(nodes), p, t))
      ensures size - |Items(Avl.Remove(t, t.key))| == old(size) - |Items(t)|
      decreases t, 0
    {
      ghost var m := nodes;
      var v := MinNode(nodes[p].right, t.right);
      var k := nodes[v].key;
      SetKeyRep(m, p, t, k);
      CellsIn(m, p, t);
      nodes := nodes[p := nodes[p].(key := k)];
      ghost var m1, t1 := nodes, t.(key := k);
      RemoveShape(t.right, k);
      ghost var tr := Avl.Remove(t.right, k);
      var c := RemoveAt(nodes[p].right, t.right, k);
      RelinkRight(m1, next, nodes, next, p, t1, c, tr);
      nodes := Link(nodes, p, nodes[p].left, c);
      MovedFrom(m, m1, next, nodes, next, p, Update(t1.(right := tr)), Cells(m, p, t));
      r := FinishRemove(m, next, p, Update(t1.(right := tr)), Cells(m, p, t));
    }

    // ----- the public operations

    method Insert(k: int, d: Data)
      requires Valid()
      modifies this
      ensures Valid() && tree == Avl.Insert(old(tree), k, d)
    {
      InsertRight(tree, k, d);
      root := InsertAt(root, tree, k, d);
      tree := Avl.Insert(tree, k, d);
    }

    method Remove(k: int)
      requires Valid()
      modifies this
      ensures Valid() && tree == Avl.Remove(old(tree), k)
    {
      RemoveRight(tree, k);
      root := RemoveAt(root, tree, k);
      tree := Avl.Remove(tree, k);
    }

    /** The search loop. */
    method Find(k: int) returns (d: Option<Data>)
      requires Valid()
      ensures d == Get(Items(tree), k)
    {
      FindRight(tree, k);
      var p := root;
      ghost var t := tree;
      while p != 0
        invariant Rep(nodes, p, t) && Avl.Find(t, k) == Avl.Find(tree, k)
        decreases t
      {
        if k > nodes[p].key {
          p, t := nodes[p].right, t.right;
        } else if k < nodes[p].key {
          p, t := nodes[p].left, t.left;
        } else {
          return Some(nodes[p].data);
        }
      }
      d := None;
    }
  }
}
