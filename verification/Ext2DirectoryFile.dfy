/** Inserting into and removing from a directory, block by block. */
module Ext2DirectoryFile {
  import opened Prelude
  import opened Ext2Layout
  import opened Ext2Directory

  datatype Code = Success | Invalid | NoEntry

  /** Name, inode number and type. */
  type Entry = (seq<Octet>, nat, Octet)

  /** All live entries of a directory. */
  function Entries(slots: seq<seq<Slot>>): seq<Entry> {
    if slots == [] then [] else Entries(slots[..|slots| - 1]) + Live(slots[|slots| - 1])
  }

  lemma {:induction false} EntriesConcat(a: seq<seq<Slot>>, b: seq<seq<Slot>>)
    ensures Entries(a + b) == Entries(a) + Entries(b)
  {
    if b == [] {
      assert a + b == a;
    } else {
      var c, front, last := a + b, b[..|b| - 1], b[|b| - 1];
      EntriesConcat(a, front);
      assert c[..|c| - 1] == a + front && c[|c| - 1] == last;
      var x, y, z := Entries(a), Entries(front), Live(last);
      assert (x + y) + z == x + (y + z);
    }
    hide Live;
  }

  /** One entry more, with all others in their order. */
  ghost predicate OneMore(old': seq<Entry>, new': seq<Entry>, x: Entry) {
    exists n | 0 <= n <= |old'| :: new' == old'[..n] + [x] + old'[n..]
  }

  lemma OneMoreAt(a: seq<Entry>, x: Entry, c: seq<Entry>)
    ensures OneMore(a + c, a + [x] + c, x)
  {
    assert (a + c)[..|a|] == a && (a + c)[|a|..] == c;
  }

  lemma EntriesOne(l: seq<Slot>)
    ensures Entries([l]) == Live(l)
  {
    assert [l][..0] == [];
  }

  lemma Regroup(a: seq<Entry>, p: seq<Entry>, x: seq<Entry>, q: seq<Entry>, c: seq<Entry>)
    ensures a + (p + q) + c == (a + p) + (q + c)
    ensures a + (p + x + q) + c == (a + p) + x + (q + c)
  {
  }

  /** A change in one block that adds an entry adds it to the directory, and one that takes it away takes it
      from the directory. */
  lemma OneMoreInBlock(slots: seq<seq<Slot>>, k: nat, l: seq<Slot>, p: seq<Entry>, x: Entry, q: seq<Entry>)
    requires k < |slots| && Live(slots[k]) == p + q && Live(l) == p + [x] + q
    ensures OneMore(Entries(slots), Entries(slots[k := l]), x)
  {
    BlockApart(slots, k, slots[k]);
    BlockApart(slots, k, l);
    assert slots[k := slots[k]] == slots;
    var a, c := Entries(slots[..k]), Entries(slots[k + 1..]);
    Regroup(a, p, [x], q, c);
    OneMoreAt(a + p, x, q + c);
    hide Entries, Live, OneMore;
  }

  lemma OneLessInBlock(slots: seq<seq<Slot>>, k: nat, l: seq<Slot>, p: seq<Entry>, x: Entry, q: seq<Entry>)
    requires k < |slots| && Live(slots[k]) == p + [x] + q && Live(l) == p + q
    ensures OneMore(Entries(slots[k := l]), Entries(slots), x)
  {
    BlockApart(slots, k, slots[k]);
    BlockApart(slots, k, l);
    assert slots[k := slots[k]] == slots;
    var a, c := Entries(slots[..k]), Entries(slots[k + 1..]);
    Regroup(a, p, [x], q, c);
    OneMoreAt(a + p, x, q + c);
    hide Entries, Live, OneMore;
  }

  lemma BlockApart(slots: seq<seq<Slot>>, k: nat, l: seq<Slot>)
    requires k < |slots|
    ensures Entries(slots[k := l]) == Entries(slots[..k]) + Live(l) + Entries(slots[k + 1..])
  {
    assert slots[k := l] == slots[..k] + [l] + slots[k + 1..];
    EntriesConcat(slots[..k] + [l], slots[k + 1..]);
    EntriesConcat(slots[..k], [l]);
    EntriesOne(l);
    hide Entries, Live;
  }

  /** No entry of a block has the room. */
  predicate NoRoom(s: seq<Slot>, need: nat) {
    forall i | 0 <= i < |s| :: Free(s[i]) < need
  }

  predicate Full(slots: seq<seq<Slot>>, need: nat) {
    forall k | 0 <= k < |slots| :: NoRoom(slots[k], need)
  }

  predicate IsPrefix(a: seq<Octet>, b: seq<Octet>) {
    |a| <= |b| && b[..|a|] == a
  }

  /** No entry of a block has the inode number. */
  predicate Lacks(s: seq<Slot>, ino: nat) {
    forall i | 0 <= i < |s| :: s[i].ino != ino
  }

  lemma LacksStep(s: seq<Slot>, j: nat, ino: nat)
    requires j <= |s|
    ensures Lacks(s[..0], ino)
    ensures j < |s| && Lacks(s[..j], ino) && s[j].ino != ino ==> Lacks(s[..j + 1], ino)
    ensures j < |s| && s[j].ino == ino ==> !Lacks(s, ino)
  {
  }

  /** The entry before the one at `j`, if there is one. */
  predicate PrevIs(s: seq<Slot>, j: nat, before: nat, reach: nat) {
    0 < j <= |s| ==> before == s[j - 1].off && reach == s[j - 1].size
  }

  class Directory {
    var blocks: seq<Block>
    const typed: bool
    ghost var slots: seq<seq<Slot>>

    /** Every block is tiled by its entries. */
    ghost predicate Valid()
      reads this
    {
      AllTiled(blocks, typed, slots)
    }

    constructor (blocks: seq<Block>, typed: bool, ghost slots: seq<seq<Slot>>)
      requires AllTiled(blocks, typed, slots)
      ensures Valid() && this.blocks == blocks && this.typed == typed && this.slots == slots
    {
      this.blocks, this.typed, this.slots := blocks, typed, slots;
    }

    /** The reach of an entry and the part of it in use, read from the block. */
    method ReadEntry(b: Block, off: nat, ghost t: Slot) returns (size: nat, prev: nat)
      requires |b| == BLOCK_SIZE && SlotOk(t) && SlotAt(b, typed, t) && off == t.off
      ensures size == t.size && prev == Need(t)
    {
      NeedRoom(t);
      size, prev := Field(b, off + 4, 2), HEAD;
      if Field(b, off, 4) != 0 {
        prev := HEAD + Round4(NameLength(b, off, typed));
      }
    }

    /** The scan of a block for an entry with enough free space. */
    method FindSpace(b: Block, ghost s: seq<Slot>, need: nat) returns (found: bool, off: nat, size: nat, prev: nat, ghost i: nat)
      requires Tiles(b, typed, s)
      ensures !found ==> NoRoom(s, need)
      ensures found ==>
        && i < |s| && Free(s[i]) >= need && NoRoom(s[..i], need) && !NoRoom(s, need)
        && off == s[i].off && size == s[i].size && prev == Need(s[i])
    {
      off, i := 0, 0;
      assert s != [] && s[0].off == 0;
      hide Tiles, SlotAt, Need, SlotOk;
      while off < BLOCK_SIZE
        invariant i <= |s| && off == if i < |s| then s[i].off else BLOCK_SIZE
        invariant forall k | 0 <= k < i :: Free(s[k]) < need
        decreases BLOCK_SIZE - off
      {
        EntryHere(b, typed, s, i);
        size, prev := ReadEntry(b, off, s[i]);
        assert size >= prev;
        if size - prev >= need {
          return true, off, size, prev, i;
        }
        off, i := off + size, i + 1;
      }
      return false, 0, 0, 0, 0;
    }

    /** The entry found gives its free space to the new one. */
    method InsertHere(k: nat, off: nat, size: nat, prev: nat, ghost i: nat, ino: nat, name: seq<Octet>, kind: Octet)
      requires Valid() && k < |blocks| && i < |slots[k]| && Insertable(slots[k][i], ino, name) && (typed || kind == 0)
      requires off == slots[k][i].off && size == slots[k][i].size && prev == Need(slots[k][i])
      modifies this
      ensures Valid() && |blocks| == |old(blocks)| && (forall l | 0 <= l < |blocks| && l != k :: blocks[l] == old(blocks)[l])
      ensures OneMore(Entries(old(slots)), Entries(slots), (name, ino, kind))
    {
      hide Tiles, Split, Entries, OneMore, Need, Overlay, Insertable;
      ghost var s := slots[k];
      assert Tiles(blocks[k], typed, s) by {
        ValidAt(blocks, typed, slots, k);
      }
      Cut(blocks[k], typed, s, i, ino, name, kind);
      ghost var s' := Split(s, i, ino, name, kind);
      CutEntries(slots, k, i, ino, name, kind);
      var b1 := Overlay(blocks[k], off + 4, Bytes(prev, 2));
      var b2 := Overlay(b1, off + prev, EntryBytes(size - prev, ino, name, typed, kind));
      StillValid(blocks, typed, slots, k, b2, s');
      blocks := blocks[k := b2];
      slots := slots[k := s'];
    }

    /** A new block for the one entry. */
    method InsertGrown(ino: nat, name: seq<Octet>, kind: Octet)
      requires Valid() && 0 < ino < 0x1_0000_0000 && |name| < 256 && (typed || kind == 0)
      modifies this
      ensures Valid() && |blocks| == |old(blocks)| + 1 && blocks[..|old(blocks)|] == old(blocks)
      ensures OneMore(Entries(old(slots)), Entries(slots), (name, ino, kind))
    {
      var b: Block := seq(BLOCK_SIZE, _ => 0);
      WholeWritten(b, typed, ino, name, kind);
      ghost var l := [Slot(0, BLOCK_SIZE, ino, name, kind)];
      EntriesConcat(slots, [l]);
      EntriesOne(l);
      LiveOne(l[0]);
      OneMoreAt(Entries(slots), (name, ino, kind), []);
      assert Entries(slots) + [] == Entries(slots);
      assert Entries(slots) + [(name, ino, kind)] + [] == Entries(slots) + [(name, ino, kind)];
      hide Tiles, Entries, Live, OneMore, Overlay;
      blocks := blocks + [Overlay(b, 0, EntryBytes(BLOCK_SIZE, ino, name, typed, kind))];
      slots := slots + [l];
    }

    /** ext2_directory_inode_insert; `growth` is what ext2_inode_resize returns if the directory has to grow, and
        `stale` what then stands in the block it claims. The entry goes to the first place with room, or to a new
        block if there is none; `at` is the block written. A type above 7 is refused on volumes with types, but
        only after growing: the directory then ends in a block that was never written. */
    method Insert(ino: nat, name: seq<Octet>, kind: nat, growth: Code, stale: Block) returns (code: Code, at: nat)
      requires Valid() && 0 < ino < 0x1_0000_0000 && |name| < 256
      modifies this
      ensures var full, refused := Full(old(slots), HEAD + Round4(|name|)), typed && kind > 7;
        && code == (if full && growth != Success then growth else if refused then Invalid else Success)
        && (code != Success ==> blocks == old(blocks) + if full && growth == Success then [stale] else [])
        && (WellFormed(blocks, typed) <==> (full && growth == Success && refused ==> Tileable(stale, typed)))
        && (!(full && growth == Success && refused) ==> Valid())
        && (code == Success ==>
              && |blocks| == |old(blocks)| + (if full then 1 else 0) && at < |blocks| && (full <==> at == |old(blocks)|)
              && (forall l | 0 <= l < |old(slots)| && l < at :: NoRoom(old(slots)[l], HEAD + Round4(|name|)))
              && (at < |old(slots)| ==> !NoRoom(old(slots)[at], HEAD + Round4(|name|)))
              && (forall l | 0 <= l < |old(blocks)| && l != at :: blocks[l] == old(blocks)[l])
              && OneMore(Entries(old(slots)), Entries(slots), (name, ino, if typed then kind else 0)))
    {
      var need := HEAD + Round4(|name|);
      var found, k, off, size, prev, i := FindBlock(need);
      hide Entries, OneMore, Round4, AllTiled, Full, Need, Insertable, Tiles;
      if !found && growth != Success {
        return growth, 0;
      }
      if typed && kind > 7 {
        if !found {
          LastBlock(blocks, typed, slots, stale);
          blocks := blocks + [stale];
        }
        return Invalid, 0;
      }
      var tag: Octet := if typed then kind else 0;
      if found {
        InsertHere(k, off, size, prev, i, ino, name, tag);
        return Success, k;
      }
      at := |blocks|;
      InsertGrown(ino, name, tag);
      code := Success;
    }

    /** The first entry of the first block with the room. */
    method FindBlock(need: nat) returns (found: bool, k: nat, off: nat, size: nat, prev: nat, ghost i: nat)
      requires Valid()
      ensures found <==> !Full(slots, need)
      ensures found ==>
        && k < |slots| && i < |slots[k]| && SlotOk(slots[k][i]) && Free(slots[k][i]) >= need
        && (forall j | 0 <= j < k :: NoRoom(slots[j], need)) && NoRoom(slots[k][..i], need)
        && off == slots[k][i].off && size == slots[k][i].size && prev == Need(slots[k][i])
    {
      hide Tiles, NoRoom, Need, SlotOk;
      for l := 0 to |blocks|
        invariant forall j | 0 <= j < l :: NoRoom(slots[j], need)
      {
        ValidAt(blocks, typed, slots, l);
        found, off, size, prev, i := FindSpace(blocks[l], slots[l], need);
        if found {
          k := l;
          TilesOk(blocks[l], typed, slots[l], i);
          return;
        }
      }
      return false, 0, 0, 0, 0, 0;
    }

    /** The scan of a block for an inode number, keeping the entry before. */
    method FindInode(b: Block, ghost s: seq<Slot>, ino: nat)
      returns (found: bool, off: nat, size: nat, before: nat, reach: nat, ghost j: nat)
      requires Tiles(b, typed, s)
      ensures found <==> !Lacks(s, ino)
      ensures found ==>
        && j < |s| && s[j].ino == ino && Lacks(s[..j], ino) && off == s[j].off && size == s[j].size
        && PrevIs(s, j, before, reach)
    {
      off, j, before, reach := 0, 0, 0, 0;
      assert s != [] && s[0].off == 0;
      hide Tiles, SlotAt, Need, SlotOk, Lacks;
      LacksStep(s, 0, ino);
      while off < BLOCK_SIZE
        invariant j <= |s| && off == if j < |s| then s[j].off else BLOCK_SIZE
        invariant Lacks(s[..j], ino)
        invariant PrevIs(s, j, before, reach)
        decreases BLOCK_SIZE - off
      {
        EntryHere(b, typed, s, j);
        LacksStep(s, j, ino);
        var number: nat;
        number, size := ReadNumber(b, off, s[j]);
        if number == ino {
          found := true;
          return;
        }
        before, reach := off, size;
        off, j := off + size, j + 1;
      }
      assert s[..|s|] == s;
      found, off, size := false, 0, 0;
    }

    method ReadNumber(b: Block, off: nat, ghost t: Slot) returns (ino: nat, size: nat)
      requires |b| == BLOCK_SIZE && SlotOk(t) && SlotAt(b, typed, t) && off == t.off
      ensures ino == t.ino && size == t.size
    {
      NeedRoom(t);
      ino, size := Field(b, off, 4), Field(b, off + 4, 2);
    }

    /** strncmp over the length of the entry's name. */
    method NameMatches(b: Block, off: nat, name: seq<Octet>, ghost t: Slot) returns (yes: bool)
      requires |b| == BLOCK_SIZE && SlotOk(t) && SlotAt(b, typed, t) && off == t.off && t.ino != 0
      ensures yes <==> IsPrefix(t.name, name)
    {
      NeedRoom(t);
      var n := NameLength(b, off, typed);
      yes := n <= |name| && name[..n] == b[off + HEAD..off + HEAD + n];
    }

    /** The first entry with an inode number, in the first block that has one. */
    method FindEntry(ino: nat)
      returns (found: bool, k: nat, off: nat, size: nat, before: nat, reach: nat, ghost j: nat)
      requires Valid()
      ensures found <==> exists l | 0 <= l < |slots| :: !Lacks(slots[l], ino)
      ensures found ==>
        && k < |slots| && j < |slots[k]| && slots[k][j].ino == ino
        && (forall l | 0 <= l < k :: Lacks(slots[l], ino)) && Lacks(slots[k][..j], ino)
        && off == slots[k][j].off && size == slots[k][j].size
        && PrevIs(slots[k], j, before, reach)
    {
      hide Tiles, Lacks;
      for l := 0 to |blocks|
        invariant forall i | 0 <= i < l :: Lacks(slots[i], ino)
      {
        ValidAt(blocks, typed, slots, l);
        found, off, size, before, reach, j := FindInode(blocks[l], slots[l], ino);
        if found {
          k := l;
          return;
        }
      }
      found, k, off, size, before, reach, j := false, 0, 0, 0, 0, 0, 0;
    }

    /** ext2_directory_inode_remove. The first entry with the inode number must have a name that `name` begins
        with. It is then taken out, unless it is the first of several in its block: that is an error. */
    method Remove(ino: nat, name: seq<Octet>) returns (code: Code, ghost k: nat, ghost j: nat)
      requires Valid() && ino != 0
      modifies this
      ensures Valid() && |blocks| == |old(blocks)|
      ensures code == NoEntry <==> forall l | 0 <= l < |old(slots)| :: Lacks(old(slots)[l], ino)
      ensures code != Success ==> blocks == old(blocks)
      ensures code != NoEntry ==>
        && k < |old(slots)| && j < |old(slots)[k]| && old(slots)[k][j].ino == ino
        && (forall l | 0 <= l < k :: Lacks(old(slots)[l], ino)) && Lacks(old(slots)[k][..j], ino)
        && (code == Success <==> IsPrefix(old(slots)[k][j].name, name) && (j > 0 || |old(slots)[k]| == 1))
        && (code == Success ==> OneMore(Entries(slots), Entries(old(slots)), (old(slots)[k][j].name, ino, old(slots)[k][j].kind)))
        && (forall l | 0 <= l < |blocks| && l != k :: blocks[l] == old(blocks)[l])
    {
      hide Tiles, Entries, OneMore, Overlay, Lacks, Joined;
      var found: bool, at: nat, off: nat, size: nat, before: nat, reach: nat;
      found, at, off, size, before, reach, j := FindEntry(ino);
      k := at;
      if !found {
        return NoEntry, 0, 0;
      }
      ghost var s := slots[at];
      ValidAt(blocks, typed, slots, at);
      EntryThere(blocks[at], typed, s, j);
      var yes := NameMatches(blocks[at], off, name, s[j]);
      if !yes {
        return Invalid, k, j;
      }
      if size == BLOCK_SIZE {
        WholeGone(blocks[at], typed, slots, at, j);
        blocks := blocks[at := Overlay(blocks[at], off, Bytes(0, 4))];
        slots := slots[at := [Slot(0, BLOCK_SIZE, 0, [], 0)]];
        return Success, k, j;
      }
      if off == 0 {
        return Invalid, k, j;
      }
      JoinBlock(blocks[at], typed, s, j);
      JoinEntries(slots, at, j);
      var b1 := Overlay(blocks[at], off, Bytes(0, 4));
      blocks := blocks[at := Overlay(b1, before + 4, Bytes(reach + size, 2))];
      slots := slots[at := Joined(s, j)];
      code := Success;
    }
  }

  /** A block with entries `a` of inode 5 and `b` of inode 6. */
  function TwoEntries(typed: bool): (b: Block) {
    var one := Overlay(seq(BLOCK_SIZE, _ => 0), 0, EntryBytes(BLOCK_SIZE, 5, [97], typed, 0));
    Overlay(Overlay(one, 4, Bytes(12, 2)), 12, EntryBytes(BLOCK_SIZE - 12, 6, [98], typed, 0))
  }

  lemma TwoEntriesTiled(typed: bool)
    ensures Tiles(TwoEntries(typed), typed, [Slot(0, 12, 5, [97], 0), Slot(12, BLOCK_SIZE - 12, 6, [98], 0)])
  {
    var zero: Block := seq(BLOCK_SIZE, _ => 0);
    var s := [Slot(0, BLOCK_SIZE, 5, [97], 0)];
    WholeWritten(zero, typed, 5, [97], 0);
    Cut(Overlay(zero, 0, EntryBytes(BLOCK_SIZE, 5, [97], typed, 0)), typed, s, 0, 6, [98], 0);
    assert Split(s, 0, 6, [98], 0) == [Slot(0, 12, 5, [97], 0), Slot(12, BLOCK_SIZE - 12, 6, [98], 0)];
    hide Tiles, Overlay, EntryBytes, Bytes;
  }

  /** The first of the two cannot be removed. */
  method FirstOfTwoStays(typed: bool) returns (code: Code)
    ensures code == Invalid
  {
    hide Tiles, TwoEntries, Entries, OneMore;
    TwoEntriesTiled(typed);
    ghost var s := [Slot(0, 12, 5, [97], 0), Slot(12, BLOCK_SIZE - 12, 6, [98], 0)];
    var d := new Directory([TwoEntries(typed)], typed, [s]);
    assert d.slots[0] == s && s[0].ino == 5 && s[1].ino == 6;
    ghost var k, j;
    code, k, j := d.Remove(5, [97]);
  }

  // ----- steps between blocks and directory

  ghost predicate AllTiled(blocks: seq<Block>, typed: bool, slots: seq<seq<Slot>>) {
    |slots| == |blocks| && forall k | 0 <= k < |blocks| :: Tiles(blocks[k], typed, slots[k])
  }

  /** The directory can be read to its end: every block is tiled by some entries. */
  ghost predicate WellFormed(blocks: seq<Block>, typed: bool) {
    exists slots :: AllTiled(blocks, typed, slots)
  }

  ghost predicate Tileable(b: Block, typed: bool) {
    exists s :: Tiles(b, typed, s)
  }

  lemma LastBlock(blocks: seq<Block>, typed: bool, slots: seq<seq<Slot>>, b: Block)
    requires AllTiled(blocks, typed, slots)
    ensures WellFormed(blocks + [b], typed) <==> Tileable(b, typed)
  {
    hide Tiles;
    if s :| Tiles(b, typed, s) {
      assert AllTiled(blocks + [b], typed, slots + [s]);
    }
    if all :| AllTiled(blocks + [b], typed, all) {
      assert Tiles((blocks + [b])[|blocks|], typed, all[|blocks|]);
    }
  }

  /** A block of zeros, for one, is not tiled: its first entry would have no length. */
  lemma ZeroBlockBroken(typed: bool)
    ensures !Tileable(seq(BLOCK_SIZE, _ => 0), typed)
  {
    var b: Block := seq(BLOCK_SIZE, _ => 0);
    assert Field(b, 4, 2) == 0 by {
      assert b[4..6] == [0, 0] && [0, 0][1..] == [0] && [0][1..] == [];
    }
    forall s ensures !Tiles(b, typed, s) {
      if Tiles(b, typed, s) {
        EntryHere(b, typed, s, 0);
        assert false;
      }
    }
  }

  lemma ValidAt(blocks: seq<Block>, typed: bool, slots: seq<seq<Slot>>, k: nat)
    requires AllTiled(blocks, typed, slots) && k < |blocks|
    ensures Tiles(blocks[k], typed, slots[k])
  {
  }

  lemma StillValid(blocks: seq<Block>, typed: bool, slots: seq<seq<Slot>>, k: nat, b: Block, s: seq<Slot>)
    requires AllTiled(blocks, typed, slots) && k < |blocks| && Tiles(b, typed, s)
    ensures AllTiled(blocks[k := b], typed, slots[k := s])
  {
    hide Tiles;
  }

  lemma EntryHere(b: Block, typed: bool, s: seq<Slot>, j: nat)
    requires Tiles(b, typed, s) && j < |s|
    ensures |b| == BLOCK_SIZE && SlotOk(s[j]) && SlotAt(b, typed, s[j])
    ensures s[j].off + s[j].size == if j + 1 < |s| then s[j + 1].off else BLOCK_SIZE
    ensures HEAD <= Need(s[j]) <= s[j].size && s[j].off + s[j].size <= BLOCK_SIZE
  {
    assert SlotOk(s[j]) && TileAt(s, j);
    SlotRoom(s[j]);
  }

  lemma SlotRoom(t: Slot)
    requires SlotOk(t)
    ensures HEAD <= Need(t) <= t.size && t.off + t.size <= BLOCK_SIZE
  {
  }

  lemma TilesOk(b: Block, typed: bool, s: seq<Slot>, i: nat)
    requires Tiles(b, typed, s) && i < |s|
    ensures SlotOk(s[i])
  {
  }

  /** The writes of an insertion, by the numbers read from the block. */
  lemma Cut(b: Block, typed: bool, s: seq<Slot>, i: nat, ino: nat, name: seq<Octet>, kind: Octet)
    requires Tiles(b, typed, s) && i < |s| && Insertable(s[i], ino, name) && (typed || kind == 0)
    ensures |name| < 256 && Need(s[i]) <= s[i].size && s[i].off + 6 <= |b|
    ensures var b1 := Overlay(b, s[i].off + 4, Bytes(Need(s[i]), 2));
      && s[i].off + Need(s[i]) + HEAD + |name| <= |b1|
      && var b2 := Overlay(b1, s[i].off + Need(s[i]), EntryBytes(s[i].size - Need(s[i]), ino, name, typed, kind));
      Tiles(b2, typed, Split(s, i, ino, name, kind))
  {
    PartsOk(s[i], ino, name, kind);
    SplitTiles(b, typed, s, i, ino, name, kind);
    OverlayAt(b, s[i].off + 4, Bytes(Need(s[i]), 2), 0, 0);
    hide Tiles, Split, Overlay, Need, Round4;
  }

  lemma CutEntries(slots: seq<seq<Slot>>, k: nat, i: nat, ino: nat, name: seq<Octet>, kind: Octet)
    requires k < |slots| && i < |slots[k]| && Insertable(slots[k][i], ino, name)
    ensures Need(slots[k][i]) <= slots[k][i].size
    ensures OneMore(Entries(slots), Entries(slots[k := Split(slots[k], i, ino, name, kind)]), (name, ino, kind))
  {
    var s := slots[k];
    SplitLive(s, i, ino, name, kind);
    OneMoreInBlock(slots, k, Split(s, i, ino, name, kind), Live(s[..i + 1]), (name, ino, kind), Live(s[i + 1..]));
    hide Split, Live, Entries, OneMore, Need;
  }

  /** Where an entry stands: it fills the block exactly if it is alone, and begins it exactly if it is first. */
  lemma EntryThere(b: Block, typed: bool, s: seq<Slot>, j: nat)
    requires Tiles(b, typed, s) && j < |s|
    ensures |b| == BLOCK_SIZE && SlotOk(s[j]) && SlotAt(b, typed, s[j])
    ensures s[j].size == BLOCK_SIZE <==> |s| == 1
    ensures s[j].off == 0 <==> j == 0
  {
    assert SlotOk(s[0]) && TileAt(s, 0) && TileAt(s, j) && SlotOk(s[j]);
    SlotRoom(s[0]);
    if j > 0 {
      InOrder(s, 0, j);
    }
    if j == 0 && |s| > 1 {
      assert SlotOk(s[1]);
      SlotRoom(s[1]);
    }
    hide SlotAt, Need, SlotOk;
  }

  /** The one entry of a block goes. */
  lemma WholeGone(b: Block, typed: bool, slots: seq<seq<Slot>>, k: nat, j: nat)
    requires k < |slots| && Tiles(b, typed, slots[k]) && j < |slots[k]| && slots[k][j].size == BLOCK_SIZE && slots[k][j].ino != 0
    ensures slots[k][j].off == 0 && |slots[k]| == 1
    ensures 4 <= |b| && Tiles(Overlay(b, 0, Bytes(0, 4)), typed, [Slot(0, BLOCK_SIZE, 0, [], 0)])
    ensures OneMore(Entries(slots[k := [Slot(0, BLOCK_SIZE, 0, [], 0)]]), Entries(slots), (slots[k][j].name, slots[k][j].ino, slots[k][j].kind))
  {
    var s, t, u := slots[k], slots[k][j], Slot(0, BLOCK_SIZE, 0, [], 0);
    EntryThere(b, typed, s, j);
    assert s == [t];
    WholeCleared(b, typed, t);
    LiveOne(t);
    LiveOne(u);
    OneLessInBlock(slots, k, [u], [], (t.name, t.ino, t.kind), []);
    hide Tiles, Live, Entries, OneMore, Overlay;
  }

  /** An entry goes to the one before it. */
  lemma JoinBlock(b: Block, typed: bool, s: seq<Slot>, j: nat)
    requires Tiles(b, typed, s) && 0 < j < |s|
    ensures s[j].off + 4 <= |b| && s[j - 1].off + 6 <= |b|
    ensures var b1 := Overlay(b, s[j].off, Bytes(0, 4));
      && s[j - 1].off + 6 <= |b1|
      && Tiles(Overlay(b1, s[j - 1].off + 4, Bytes(s[j - 1].size + s[j].size, 2)), typed, Joined(s, j))
  {
    assert |b| == BLOCK_SIZE;
    JoinTiles(b, typed, s, j);
    OverlayAt(b, s[j].off, Bytes(0, 4), 0, 0);
    hide Tiles, Overlay, Joined;
  }

  lemma JoinEntries(slots: seq<seq<Slot>>, k: nat, j: nat)
    requires k < |slots| && 0 < j < |slots[k]| && slots[k][j].ino != 0
    ensures OneMore(Entries(slots[k := Joined(slots[k], j)]), Entries(slots), (slots[k][j].name, slots[k][j].ino, slots[k][j].kind))
  {
    var s := slots[k];
    JoinLive(s, j);
    LiveOne(s[j]);
    OneLessInBlock(slots, k, Joined(s, j), Live(s[..j]), (s[j].name, s[j].ino, s[j].kind), Live(s[j + 1..]));
    hide Live, Entries, OneMore, Joined;
  }
}
