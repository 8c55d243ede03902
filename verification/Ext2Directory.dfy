/** Directory blocks: entries that tile a block, each with room for its name. */
module Ext2Directory {
  import opened Prelude
  import opened Ext2Layout

  const HEAD: nat := 8

  /** An entry: where it is, how far it reaches, its inode number, and if that is not zero its name and its type. */
  datatype Slot = Slot(off: nat, size: nat, ino: nat, name: seq<Octet>, kind: Octet)

  function Round4(n: nat): nat {
    (n + 3) / 4 * 4
  }

  /** The part of an entry in use. */
  function Need(s: Slot): nat {
    if s.ino != 0 then HEAD + Round4(|s.name|) else HEAD
  }

  // ----- an entry in a block

  function Field(b: Block, o: nat, n: nat): nat
    requires o + n <= |b|
  {
    Number(b[o..o + n])
  }

  /** The length of a name: with the type field on, one byte, else two. */
  function NameLength(b: Block, o: nat, typed: bool): nat
    requires o + HEAD <= |b|
  {
    if typed then Field(b, o + 6, 1) else Field(b, o + 6, 2)
  }

  predicate SlotOk(s: Slot) {
    Need(s) <= s.size && s.off + s.size <= BLOCK_SIZE && s.ino < 0x1_0000_0000 && |s.name| < 256
  }

  predicate SlotAt(b: Block, typed: bool, s: Slot)
    requires |b| == BLOCK_SIZE && SlotOk(s)
  {
    && Field(b, s.off, 4) == s.ino && Field(b, s.off + 4, 2) == s.size
    && (s.ino != 0 ==>
          && NameLength(b, s.off, typed) == |s.name| && b[s.off + HEAD..s.off + HEAD + |s.name|] == s.name
          && s.kind == if typed then b[s.off + 7] else 0)
  }

  lemma NeedRoom(s: Slot)
    ensures s.ino != 0 ==> HEAD + |s.name| <= Need(s)
    ensures HEAD <= Need(s)
  {
  }

  /** An entry depends on the bytes it uses. */
  lemma SlotFrame(b: Block, b': Block, typed: bool, s: Slot)
    requires |b| == BLOCK_SIZE && |b'| == BLOCK_SIZE && SlotOk(s) && SlotAt(b, typed, s)
    requires b'[s.off..s.off + Need(s)] == b[s.off..s.off + Need(s)]
    ensures SlotAt(b', typed, s)
  {
    NeedRoom(s);
    var o, n := s.off, Need(s);
    SameSlice(b, b', o, n, 0, 4);
    SameSlice(b, b', o, n, 4, 6);
    SameSlice(b, b', o, n, 6, 7);
    SameSlice(b, b', o, n, 6, 8);
    assert b[o + 7] == b[o + 6..o + 8][1] && b'[o + 7] == b'[o + 6..o + 8][1];
    if s.ino != 0 {
      SameSlice(b, b', o, n, HEAD, HEAD + |s.name|);
    }
  }

  lemma SameSlice(b: Block, b': Block, o: nat, n: nat, x: nat, y: nat)
    requires o + n <= |b| && |b'| == |b| && b'[o..o + n] == b[o..o + n] && x <= y <= n
    ensures b'[o + x..o + y] == b[o + x..o + y]
  {
    var p, q := b[o..o + n], b'[o..o + n];
    var r, r' := b[o + x..o + y], b'[o + x..o + y];
    forall i | 0 <= i < y - x ensures r'[i] == r[i] {
      assert r[i] == p[x + i] && r'[i] == q[x + i];
    }
  }

  // ----- tiling

  /** The entry at `i` ends where the next one begins, or the block ends. */
  predicate TileAt(s: seq<Slot>, i: nat)
    requires i < |s|
  {
    s[i].off + s[i].size == if i + 1 < |s| then s[i + 1].off else BLOCK_SIZE
  }

  predicate Tiled(s: seq<Slot>) {
    && s != [] && s[0].off == 0
    && (forall i | 0 <= i < |s| :: SlotOk(s[i]))
    && (forall i | 0 <= i < |s| :: TileAt(s, i))
  }

  /** The block holds exactly these entries, end to end. */
  ghost predicate Tiles(b: Block, typed: bool, s: seq<Slot>) {
    |b| == BLOCK_SIZE && Tiled(s) && forall i | 0 <= i < |s| :: SlotAt(b, typed, s[i])
  }

  lemma {:induction false} InOrder(s: seq<Slot>, i: nat, j: nat)
    requires Tiled(s) && i < j < |s|
    ensures s[i].off + s[i].size <= s[j].off
    decreases j
  {
    assert TileAt(s, j - 1);
    if i < j - 1 {
      InOrder(s, i, j - 1);
      assert SlotOk(s[j - 1]);
    }
  }

  /** The live entries, in block order: name, inode number and type. */
  function Live(s: seq<Slot>): seq<(seq<Octet>, nat, Octet)> {
    if s == [] then []
    else Live(s[..|s| - 1]) + if s[|s| - 1].ino != 0 then [(s[|s| - 1].name, s[|s| - 1].ino, s[|s| - 1].kind)] else []
  }

  lemma {:induction false} LiveConcat(a: seq<Slot>, b: seq<Slot>)
    ensures Live(a + b) == Live(a) + Live(b)
  {
    if b == [] {
      assert a + b == a;
    } else {
      var c, front := a + b, b[..|b| - 1];
      LiveConcat(a, front);
      assert c[..|c| - 1] == a + front && c[|c| - 1] == b[|b| - 1];
      var one := if b[|b| - 1].ino != 0 then [(b[|b| - 1].name, b[|b| - 1].ino, b[|b| - 1].kind)] else [];
      assert Live(c) == Live(a + front) + one && Live(b) == Live(front) + one;
      hide Live;
    }
  }

  // ----- writing an entry

  /** The bytes of a new entry: with the type field on, the byte after the length is the type, else
      it is the rest of the length. */
  function EntryBytes(size: nat, ino: nat, name: seq<Octet>, typed: bool, kind: Octet): (r: seq<Octet>)
    requires |name| < 256
    ensures |r| == HEAD + |name|
  {
    Bytes(ino, 4) + Bytes(size, 2) + [|name|, if typed then kind else |name| / 256] + name
  }

  lemma EntryWritten(b: Block, s: Slot, typed: bool, kind: Octet)
    requires |b| == BLOCK_SIZE && SlotOk(s) && s.ino != 0 && s.kind == kind && (typed || kind == 0)
    ensures s.off + HEAD + |s.name| <= BLOCK_SIZE
    ensures var b' := Overlay(b, s.off, EntryBytes(s.size, s.ino, s.name, typed, kind));
      |b'| == BLOCK_SIZE && SlotAt(b', typed, s)
  {
    NeedRoom(s);
    var o, e := s.off, EntryBytes(s.size, s.ino, s.name, typed, kind);
    var b' := Overlay(b, o, e);
    OverlayAt(b, o, e, o, o + 4);
    OverlayAt(b, o, e, o + 4, o + 6);
    OverlayAt(b, o, e, o + 6, o + 7);
    OverlayAt(b, o, e, o + 6, o + 8);
    OverlayAt(b, o, e, o + HEAD, o + HEAD + |s.name|);
    EntryParts(s.size, s.ino, s.name, typed, kind);
    assert b'[o + 7] == b'[o + 6..o + 8][1];
    assert Power(4) == 0x1_0000_0000 && Power(2) == 0x1_0000;
    NumberTrip(s.ino, 4);
    NumberTrip(s.size, 2);
    hide Overlay, EntryBytes, Bytes, Power, Need;
  }

  lemma EntryParts(size: nat, ino: nat, name: seq<Octet>, typed: bool, kind: Octet)
    requires |name| < 256
    ensures var e := EntryBytes(size, ino, name, typed, kind);
      && e[0..4] == Bytes(ino, 4) && e[4..6] == Bytes(size, 2) && e[HEAD..HEAD + |name|] == name
      && Number(e[6..7]) == |name| && (!typed ==> Number(e[6..8]) == |name|) && (typed ==> e[6..8][1] == kind)
  {
    var e := EntryBytes(size, ino, name, typed, kind);
    assert e[6..7] == [|name|];
    assert e[6..8] == [|name|, if typed then kind else |name| / 256];
    assert e[6..8][1..] == [if typed then kind else |name| / 256];
    assert e[6..8][1..][1..] == [];
    assert e[6..7][1..] == [];
  }

  /** Writing the two size bytes of an entry changes its reach and nothing else about it. */
  lemma SizeWritten(b: Block, s: Slot, typed: bool, size: nat)
    requires |b| == BLOCK_SIZE && SlotOk(s) && SlotAt(b, typed, s) && Need(s) <= size && s.off + size <= BLOCK_SIZE
    ensures var b' := Overlay(b, s.off + 4, Bytes(size, 2));
      |b'| == BLOCK_SIZE && SlotAt(b', typed, s.(size := size))
  {
    NeedRoom(s);
    var o, e := s.off, Bytes(size, 2);
    OverlayAt(b, o + 4, e, o, o + 4);
    OverlayAt(b, o + 4, e, o + 4, o + 6);
    OverlayAt(b, o + 4, e, o + 6, o + 7);
    OverlayAt(b, o + 4, e, o + 6, o + 8);
    var b' := Overlay(b, o + 4, e);
    assert b[o + 7] == b[o + 6..o + 8][1] && b'[o + 7] == b'[o + 6..o + 8][1];
    if s.ino != 0 {
      OverlayAt(b, o + 4, e, o + HEAD, o + HEAD + |s.name|);
    }
    assert Power(2) == 0x1_0000;
    NumberTrip(size, 2);
    assert e[0..2] == e;
    hide Overlay, Bytes, Power;
  }

  // ----- inserting

  function Free(s: Slot): int {
    s.size - Need(s)
  }

  /** The entries after the one at `i` has given its free space to a new one. */
  function Split(s: seq<Slot>, i: nat, ino: nat, name: seq<Octet>, kind: Octet): seq<Slot>
    requires i < |s| && Need(s[i]) <= s[i].size
  {
    s[..i] + [Keep(s[i]), New(s[i], ino, name, kind)] + s[i + 1..]
  }

  /** The bytes after insertion at entry `t`. */
  function SplitBytes(b: Block, t: Slot, ino: nat, name: seq<Octet>, typed: bool, kind: Octet): Block
    requires |b| == BLOCK_SIZE && SlotOk(t) && |name| < 256 && HEAD + |name| <= Free(t)
  {
    var b1 := Overlay(b, t.off + 4, Bytes(Need(t), 2));
    Overlay(b1, t.off + Need(t), EntryBytes(t.size - Need(t), ino, name, typed, kind))
  }

  predicate Insertable(t: Slot, ino: nat, name: seq<Octet>) {
    SlotOk(t) && 0 < ino < 0x1_0000_0000 && |name| < 256 && HEAD + Round4(|name|) <= Free(t)
  }

  lemma RoundUp(n: nat)
    ensures n <= Round4(n)
  {
  }

  function Keep(t: Slot): Slot {
    t.(size := Need(t))
  }

  function New(t: Slot, ino: nat, name: seq<Octet>, kind: Octet): Slot
    requires Need(t) <= t.size
  {
    Slot(t.off + Need(t), t.size - Need(t), ino, name, kind)
  }

  lemma PartsOk(t: Slot, ino: nat, name: seq<Octet>, kind: Octet)
    requires Insertable(t, ino, name)
    ensures HEAD + |name| <= Free(t) && Need(t) <= t.size && SlotOk(Keep(t)) && SlotOk(New(t, ino, name, kind))
    ensures Need(Keep(t)) == Need(t) && HEAD <= Need(t)
  {
    RoundUp(|name|);
  }

  /** The new entry is in the block. */
  lemma NewWritten(b: Block, t: Slot, ino: nat, name: seq<Octet>, typed: bool, kind: Octet)
    requires |b| == BLOCK_SIZE && Insertable(t, ino, name) && (typed || kind == 0)
    ensures HEAD + |name| <= Free(t) && Need(t) <= t.size && SlotOk(New(t, ino, name, kind))
    ensures var b' := SplitBytes(b, t, ino, name, typed, kind);
      |b'| == BLOCK_SIZE && SlotAt(b', typed, New(t, ino, name, kind))
  {
    PartsOk(t, ino, name, kind);
    var b1 := Overlay(b, t.off + 4, Bytes(Need(t), 2));
    EntryWritten(b1, New(t, ino, name, kind), typed, kind);
    hide EntryBytes, SlotAt, SlotOk, Need;
  }

  /** So is the old one, cut to what it uses. */
  lemma KeepWritten(b: Block, t: Slot, ino: nat, name: seq<Octet>, typed: bool, kind: Octet)
    requires |b| == BLOCK_SIZE && Insertable(t, ino, name) && SlotAt(b, typed, t)
    ensures HEAD + |name| <= Free(t) && SlotOk(Keep(t))
    ensures var b' := SplitBytes(b, t, ino, name, typed, kind);
      |b'| == BLOCK_SIZE && SlotAt(b', typed, Keep(t))
  {
    PartsOk(t, ino, name, kind);
    var n := Need(t);
    var b1 := Overlay(b, t.off + 4, Bytes(n, 2));
    var e := EntryBytes(t.size - n, ino, name, typed, kind);
    SizeWritten(b, t, typed, n);
    OverlayAt(b1, t.off + n, e, t.off, t.off + n);
    SlotFrame(b1, SplitBytes(b, t, ino, name, typed, kind), typed, Keep(t));
    hide Overlay, EntryBytes, Bytes, SlotAt, SlotOk, Need;
  }

  /** Bytes outside the old entry are not touched. */
  lemma SplitOutside(b: Block, t: Slot, ino: nat, name: seq<Octet>, typed: bool, kind: Octet, x: nat, y: nat)
    requires |b| == BLOCK_SIZE && Insertable(t, ino, name) && x <= y <= BLOCK_SIZE
    requires y <= t.off || t.off + t.size <= x
    ensures HEAD + |name| <= Free(t)
    ensures var b' := SplitBytes(b, t, ino, name, typed, kind);
      |b'| == BLOCK_SIZE && b'[x..y] == b[x..y]
  {
    PartsOk(t, ino, name, kind);
    var n := Need(t);
    var head, e := Bytes(n, 2), EntryBytes(t.size - n, ino, name, typed, kind);
    assert |head| == 2 && |e| == HEAD + |name|;
    OverlayAt(b, t.off + 4, head, x, y);
    var b1 := Overlay(b, t.off + 4, head);
    OverlayAt(b1, t.off + n, e, x, y);
    hide Overlay, Need, Bytes, EntryBytes, Round4, SlotOk;
  }

  lemma SplitTiled(s: seq<Slot>, i: nat, ino: nat, name: seq<Octet>, kind: Octet)
    requires Tiled(s) && i < |s| && Insertable(s[i], ino, name)
    ensures Tiled(Split(s, i, ino, name, kind))
  {
    var r := Split(s, i, ino, name, kind);
    forall j | 0 <= j < |r| ensures SlotOk(r[j]) {
      assert j > i + 1 ==> r[j] == s[j - 1];
    }
    forall j | 0 <= j < |r| ensures TileAt(r, j) {
      if j < i {
        assert TileAt(s, j);
      } else if j > i {
        assert TileAt(s, j - 1);
        assert j > i + 1 ==> r[j] == s[j - 1];
        assert j + 1 < |r| ==> r[j + 1] == s[j];
      }
    }
  }

  /** An entry that lies apart is kept. */
  lemma SlotKept(b: Block, typed: bool, t: Slot, ino: nat, name: seq<Octet>, kind: Octet, u: Slot)
    requires |b| == BLOCK_SIZE && Insertable(t, ino, name) && SlotOk(u) && SlotAt(b, typed, u)
    requires u.off + u.size <= t.off || t.off + t.size <= u.off
    ensures HEAD + |name| <= Free(t)
    ensures var b' := SplitBytes(b, t, ino, name, typed, kind);
      |b'| == BLOCK_SIZE && SlotAt(b', typed, u)
  {
    SplitOutside(b, t, ino, name, typed, kind, u.off, u.off + Need(u));
    SlotFrame(b, SplitBytes(b, t, ino, name, typed, kind), typed, u);
    hide SplitBytes, SlotAt, Need, Insertable;
  }

  lemma Apart(s: seq<Slot>, i: nat, k: nat)
    requires Tiled(s) && i < |s| && k < |s| && k != i
    ensures SlotOk(s[i]) && SlotOk(s[k])
    ensures s[k].off + s[k].size <= s[i].off || s[i].off + s[i].size <= s[k].off
  {
    if k < i {
      InOrder(s, k, i);
    } else {
      InOrder(s, i, k);
    }
  }

  /** Insertion keeps the entries tiling the block. */
  lemma SplitTiles(b: Block, typed: bool, s: seq<Slot>, i: nat, ino: nat, name: seq<Octet>, kind: Octet)
    requires Tiles(b, typed, s) && i < |s| && Insertable(s[i], ino, name) && (typed || kind == 0)
    ensures HEAD + |name| <= Free(s[i])
    ensures Tiles(SplitBytes(b, s[i], ino, name, typed, kind), typed, Split(s, i, ino, name, kind))
  {
    PartsOk(s[i], ino, name, kind);
    SplitTiled(s, i, ino, name, kind);
    NewWritten(b, s[i], ino, name, typed, kind);
    KeepWritten(b, s[i], ino, name, typed, kind);
    var b', r := SplitBytes(b, s[i], ino, name, typed, kind), Split(s, i, ino, name, kind);
    forall k | 0 <= k < |s| && k != i ensures SlotAt(b', typed, s[k]) {
      Apart(s, i, k);
      SlotKept(b, typed, s[i], ino, name, kind, s[k]);
    }
    forall j | 0 <= j < |r| ensures SlotAt(b', typed, r[j]) {
      SplitIndex(s, i, ino, name, kind, j);
    }
    hide SplitBytes, SlotAt, Need, Tiled, Insertable, Split, SlotOk, Keep, New;
  }

  lemma SplitIndex(s: seq<Slot>, i: nat, ino: nat, name: seq<Octet>, kind: Octet, j: nat)
    requires i < |s| && Need(s[i]) <= s[i].size && j <= |s|
    ensures |Split(s, i, ino, name, kind)| == |s| + 1
    ensures Split(s, i, ino, name, kind)[j] ==
      if j < i then s[j] else if j == i then Keep(s[i]) else if j == i + 1 then New(s[i], ino, name, kind) else s[j - 1]
  {
  }

  /** And adds exactly the one live entry. */
  lemma SplitLive(s: seq<Slot>, i: nat, ino: nat, name: seq<Octet>, kind: Octet)
    requires i < |s| && Need(s[i]) <= s[i].size && ino != 0
    ensures Live(Split(s, i, ino, name, kind)) == Live(s[..i + 1]) + [(name, ino, kind)] + Live(s[i + 1..])
    ensures Live(s) == Live(s[..i + 1]) + Live(s[i + 1..])
  {
    LiveCut(s, i);
    LiveFour(s[..i], Keep(s[i]), New(s[i], ino, name, kind), s[i + 1..]);
    LiveOne(Keep(s[i]));
    LiveOne(s[i]);
    LiveOne(New(s[i], ino, name, kind));
    hide Live, Need;
  }

  lemma LiveCut(s: seq<Slot>, i: nat)
    requires i < |s|
    ensures Live(s[..i + 1]) == Live(s[..i]) + Live([s[i]])
    ensures Live(s) == Live(s[..i + 1]) + Live(s[i + 1..])
  {
    hide Live;
    SlotsCut(s, i);
    LiveConcat(s[..i], [s[i]]);
    LiveConcat(s[..i + 1], s[i + 1..]);
  }

  lemma SlotsCut(s: seq<Slot>, i: nat)
    requires i < |s|
    ensures s[..i] + [s[i]] == s[..i + 1] && s[..i + 1] + s[i + 1..] == s
  {
  }

  lemma LiveFour(a: seq<Slot>, x: Slot, y: Slot, c: seq<Slot>)
    ensures Live(a + [x, y] + c) == Live(a) + Live([x]) + Live([y]) + Live(c)
  {
    assert a + [x, y] + c == a + [x] + [y] + c;
    LiveConcat(a + [x] + [y], c);
    LiveConcat(a + [x], [y]);
    LiveConcat(a, [x]);
    hide Live;
  }

  lemma LiveOne(t: Slot)
    ensures Live([t]) == if t.ino != 0 then [(t.name, t.ino, t.kind)] else []
  {
    assert [t][..0] == [];
  }

  // ----- removing

  /** The entries after the one at `j` has gone to the one before it. */
  function Joined(s: seq<Slot>, j: nat): seq<Slot>
    requires 0 < j < |s|
  {
    s[..j - 1] + [s[j - 1].(size := s[j - 1].size + s[j].size)] + s[j + 1..]
  }

  /** The bytes then: the number of entry `t` is cleared, and `p` before it reaches over it. */
  function JoinBytes(b: Block, p: Slot, t: Slot): Block
    requires |b| == BLOCK_SIZE && p.off + 6 <= BLOCK_SIZE && t.off + 4 <= BLOCK_SIZE
  {
    Overlay(Overlay(b, t.off, Bytes(0, 4)), p.off + 4, Bytes(p.size + t.size, 2))
  }

  lemma JoinedIndex(s: seq<Slot>, j: nat, k: nat)
    requires 0 < j < |s| && k < |s| - 1
    ensures |Joined(s, j)| == |s| - 1
    ensures Joined(s, j)[k] ==
      if k < j - 1 then s[k] else if k == j - 1 then s[j - 1].(size := s[j - 1].size + s[j].size) else s[k + 1]
  {
  }

  lemma JoinedTiled(s: seq<Slot>, j: nat)
    requires Tiled(s) && 0 < j < |s|
    ensures Tiled(Joined(s, j))
  {
    var r := Joined(s, j);
    assert TileAt(s, j - 1) && TileAt(s, j) && SlotOk(s[j]) && SlotOk(s[j - 1]);
    forall k | 0 <= k < |r| ensures SlotOk(r[k]) {
      JoinedIndex(s, j, k);
    }
    forall k | 0 <= k < |r| ensures TileAt(r, k) {
      JoinedIndex(s, j, k);
      if k + 1 < |r| {
        JoinedIndex(s, j, k + 1);
      }
      if k < j - 1 {
        assert TileAt(s, k);
      } else if k > j - 1 {
        assert TileAt(s, k + 1);
      }
    }
    JoinedIndex(s, j, 0);
    hide Joined, SlotOk;
  }

  lemma JoinedOk(p: Slot, t: Slot)
    requires SlotOk(p) && SlotOk(t) && p.off + p.size == t.off
    ensures SlotOk(p.(size := p.size + t.size)) && Need(p.(size := p.size + t.size)) == Need(p)
  {
  }

  /** The entry before is there with its new reach. */
  lemma JoinWritten(b: Block, typed: bool, p: Slot, t: Slot)
    requires |b| == BLOCK_SIZE && SlotOk(p) && SlotOk(t) && p.off + p.size == t.off && SlotAt(b, typed, p)
    ensures HEAD <= Need(p) && HEAD <= Need(t) && SlotOk(p.(size := p.size + t.size))
    ensures |JoinBytes(b, p, t)| == BLOCK_SIZE && SlotAt(JoinBytes(b, p, t), typed, p.(size := p.size + t.size))
  {
    NeedRoom(p);
    NeedRoom(t);
    JoinedOk(p, t);
    var zero := Bytes(0, 4);
    assert |zero| == 4;
    OverlayAt(b, t.off, zero, p.off, p.off + Need(p));
    var b1 := Overlay(b, t.off, zero);
    SlotFrame(b, b1, typed, p);
    SizeWritten(b1, p, typed, p.size + t.size);
    hide Overlay, SlotAt, Bytes, Need;
  }

  /** Entries apart from both are kept. */
  lemma JoinKept(b: Block, typed: bool, p: Slot, t: Slot, u: Slot)
    requires |b| == BLOCK_SIZE && SlotOk(p) && SlotOk(t) && p.off + p.size == t.off && SlotOk(u) && SlotAt(b, typed, u)
    requires u.off + u.size <= p.off || t.off + t.size <= u.off
    ensures HEAD <= Need(p) && HEAD <= Need(t)
    ensures |JoinBytes(b, p, t)| == BLOCK_SIZE && SlotAt(JoinBytes(b, p, t), typed, u)
  {
    NeedRoom(p);
    NeedRoom(t);
    var zero, size := Bytes(0, 4), Bytes(p.size + t.size, 2);
    assert |zero| == 4 && |size| == 2;
    var x, y := u.off, u.off + Need(u);
    OverlayAt(b, t.off, zero, x, y);
    var b1 := Overlay(b, t.off, zero);
    OverlayAt(b1, p.off + 4, size, x, y);
    SlotFrame(b, Overlay(b1, p.off + 4, size), typed, u);
    hide Overlay, SlotAt, Bytes, Need;
  }

  /** Removal keeps the entries tiling the block. */
  lemma JoinTiles(b: Block, typed: bool, s: seq<Slot>, j: nat)
    requires Tiles(b, typed, s) && 0 < j < |s|
    ensures s[j - 1].off + 6 <= BLOCK_SIZE && s[j].off + 4 <= BLOCK_SIZE
    ensures Tiles(JoinBytes(b, s[j - 1], s[j]), typed, Joined(s, j))
  {
    var p, t, r := s[j - 1], s[j], Joined(s, j);
    assert TileAt(s, j - 1) && SlotOk(p) && SlotOk(t) && SlotAt(b, typed, p);
    JoinedTiled(s, j);
    JoinWritten(b, typed, p, t);
    var b' := JoinBytes(b, p, t);
    forall k | 0 <= k < |r| ensures SlotAt(b', typed, r[k]) {
      JoinedIndex(s, j, k);
      if k != j - 1 {
        OtherJoined(b, typed, s, j, if k < j - 1 then k else k + 1);
      }
    }
    hide JoinBytes, SlotAt, Tiled, Joined, SlotOk;
  }

  lemma OtherJoined(b: Block, typed: bool, s: seq<Slot>, j: nat, k: nat)
    requires Tiles(b, typed, s) && 0 < j < |s| && k < |s| && k != j && k != j - 1
    ensures s[j - 1].off + 6 <= BLOCK_SIZE && s[j].off + 4 <= BLOCK_SIZE
    ensures var b' := JoinBytes(b, s[j - 1], s[j]);
      |b'| == BLOCK_SIZE && SlotOk(s[k]) && SlotAt(b', typed, s[k])
  {
    assert TileAt(s, j - 1) && SlotAt(b, typed, s[k]);
    Apart(s, j, k);
    Apart(s, j - 1, k);
    NeedRoom(s[j - 1]);
    NeedRoom(s[j]);
    JoinKept(b, typed, s[j - 1], s[j], s[k]);
    hide JoinBytes, SlotAt, Tiled, Need;
  }

  /** And takes away exactly the one live entry. */
  lemma JoinLive(s: seq<Slot>, j: nat)
    requires 0 < j < |s|
    ensures Live(Joined(s, j)) == Live(s[..j]) + Live(s[j + 1..])
    ensures Live(s) == Live(s[..j]) + Live([s[j]]) + Live(s[j + 1..])
  {
    var p := s[j - 1].(size := s[j - 1].size + s[j].size);
    LiveCut(s, j);
    LiveCut(s, j - 1);
    LiveThree(s[..j - 1], p, s[j + 1..]);
    LiveOne(p);
    LiveOne(s[j - 1]);
    hide Live;
  }

  lemma LiveThree(a: seq<Slot>, x: Slot, c: seq<Slot>)
    ensures Live(a + [x] + c) == Live(a) + Live([x]) + Live(c)
  {
    LiveConcat(a + [x], c);
    LiveConcat(a, [x]);
    hide Live;
  }

  // ----- a block that holds one entry only

  /** A block written for one entry. */
  lemma WholeWritten(b: Block, typed: bool, ino: nat, name: seq<Octet>, kind: Octet)
    requires |b| == BLOCK_SIZE && 0 < ino < 0x1_0000_0000 && |name| < 256 && (typed || kind == 0)
    ensures var b' := Overlay(b, 0, EntryBytes(BLOCK_SIZE, ino, name, typed, kind));
      Tiles(b', typed, [Slot(0, BLOCK_SIZE, ino, name, kind)])
  {
    var t := Slot(0, BLOCK_SIZE, ino, name, kind);
    EntryWritten(b, t, typed, kind);
    assert TileAt([t], 0);
    hide Overlay, EntryBytes, SlotAt;
  }

  /** The one entry of a block is cleared in place. */
  lemma WholeCleared(b: Block, typed: bool, t: Slot)
    requires Tiles(b, typed, [t])
    ensures |Overlay(b, 0, Bytes(0, 4))| == BLOCK_SIZE
    ensures Tiles(Overlay(b, 0, Bytes(0, 4)), typed, [Slot(0, BLOCK_SIZE, 0, [], 0)])
  {
    var u := Slot(0, BLOCK_SIZE, 0, [], 0);
    assert TileAt([t], 0) && SlotOk([t][0]) && SlotAt(b, typed, [t][0]);
    ZeroWritten(b, typed);
    assert TileAt([u], 0);
    hide Overlay, Bytes, Need, SlotAt;
  }

  lemma ZeroWritten(b: Block, typed: bool)
    requires |b| == BLOCK_SIZE && Field(b, 4, 2) == BLOCK_SIZE
    ensures |Overlay(b, 0, Bytes(0, 4))| == BLOCK_SIZE
    ensures SlotAt(Overlay(b, 0, Bytes(0, 4)), typed, Slot(0, BLOCK_SIZE, 0, [], 0))
  {
    var zero := Bytes(0, 4);
    OverlayAt(b, 0, zero, 0, 4);
    OverlayAt(b, 0, zero, 4, 6);
    assert zero[0..4] == zero;
    assert Power(4) == 0x1_0000_0000;
    NumberTrip(0, 4);
    hide Overlay, Bytes, Power;
  }
}
