/** A directory kept in a file of the volume: an insertion that reads, grows and writes that file. */
module Ext2DirectoryVolume {
  import opened Prelude
  import opened Ext2Layout
  import F = Ext2Files
  import G = Ext2Growth
  import V = Ext2Volume
  import E = Ext2Directory
  import D = Ext2DirectoryFile

  /** The bytes of file `f` are those of the blocks, end to end. */
  ghost predicate Mirrors(v: F.Volume, f: nat, blocks: seq<Block>) {
    && F.Ok(v) && f in v.files && v.files[f].size == |blocks| * BLOCK_SIZE
    && (forall k | 0 <= k < |blocks| :: |blocks[k]| == BLOCK_SIZE)
    && (forall p: nat | p < v.files[f].size :: ByteIs(v, f, p, blocks))
  }

  ghost predicate ByteIs(v: F.Volume, f: nat, p: nat, blocks: seq<Block>)
    requires F.Ok(v) && f in v.files && p < v.files[f].size
  {
    && p / BLOCK_SIZE < |blocks| && p % BLOCK_SIZE < |blocks[p / BLOCK_SIZE]|
    && F.Byte(v, f, p) == blocks[p / BLOCK_SIZE][p % BLOCK_SIZE]
  }

  /** No file but `f` changes its size or a byte. */
  ghost predicate OthersKept(v: F.Volume, w: F.Volume, f: nat) {
    && F.Ok(v) && F.Ok(w) && w.files.Keys == v.files.Keys
    && (forall g | g in v.files && g != f :: w.files[g].size == v.files[g].size)
    && (forall g, p: nat | g in v.files && g != f && p < v.files[g].size :: F.Byte(w, g, p) == F.Byte(v, g, p))
  }

  lemma BlockPlace(n: nat, p: nat)
    requires p < (n + 1) * BLOCK_SIZE
    ensures p / BLOCK_SIZE <= n
    ensures p < n * BLOCK_SIZE <==> p / BLOCK_SIZE < n
    ensures p >= n * BLOCK_SIZE ==> p / BLOCK_SIZE == n && p % BLOCK_SIZE == p - n * BLOCK_SIZE
  {
  }

  lemma CountBlocks(n: nat)
    ensures F.Count(n * BLOCK_SIZE) == n
  {
  }

  /** The file has grown by a block that reads `stale`. */
  lemma GrownMirrors(v: F.Volume, w: F.Volume, f: nat, blocks: seq<Block>, stale: Block)
    requires Mirrors(v, f, blocks) && F.Ok(w) && f in w.files && w.files[f].size == v.files[f].size + BLOCK_SIZE
    requires forall p: nat | p < v.files[f].size :: F.Byte(w, f, p) == F.Byte(v, f, p)
    requires |stale| == BLOCK_SIZE
    requires forall i: nat | i < BLOCK_SIZE :: F.Byte(w, f, |blocks| * BLOCK_SIZE + i) == stale[i]
    ensures Mirrors(w, f, blocks + [stale])
  {
    hide F.Ok, F.Byte;
    var all := blocks + [stale];
    forall p: nat | p < w.files[f].size ensures ByteIs(w, f, p, all) {
      BlockPlace(|blocks|, p);
      if p < v.files[f].size {
        assert ByteIs(v, f, p, blocks);
      } else {
        assert F.Byte(w, f, |blocks| * BLOCK_SIZE + (p - |blocks| * BLOCK_SIZE)) == stale[p - |blocks| * BLOCK_SIZE];
      }
    }
  }

  /** Block `at` has been written. */
  lemma WrittenMirrors(v: F.Volume, w: F.Volume, f: nat, blocks: seq<Block>, at: nat, b: Block)
    requires Mirrors(v, f, blocks) && F.Ok(w) && w.files == v.files && at < |blocks| && |b| == BLOCK_SIZE
    requires forall p: nat | p < v.files[f].size ::
      F.Byte(w, f, p) == if at * BLOCK_SIZE <= p < at * BLOCK_SIZE + BLOCK_SIZE then b[p - at * BLOCK_SIZE] else F.Byte(v, f, p)
    ensures Mirrors(w, f, blocks[at := b])
  {
    hide F.Ok, F.Byte;
    var all := blocks[at := b];
    forall p: nat | p < w.files[f].size ensures ByteIs(w, f, p, all) {
      assert ByteIs(v, f, p, blocks);
      InBlock(at, p);
    }
  }

  lemma InBlock(at: nat, p: nat)
    ensures at * BLOCK_SIZE <= p < at * BLOCK_SIZE + BLOCK_SIZE <==> p / BLOCK_SIZE == at
    ensures p / BLOCK_SIZE == at ==> p % BLOCK_SIZE == p - at * BLOCK_SIZE
  {
  }

  function Passed(c: V.Code): D.Code {
    match c
    case Success => D.Success
    case Invalid => D.Invalid
    case _ => D.NoEntry
  }

  /** ext2_inode_resize by one block, and what then stands in the new block. */
  method Grow(vol: V.Ext2, f: nat, ghost blocks: seq<Block>) returns (c: V.Code, stale: Block)
    requires Mirrors(vol.V(), f, blocks)
    modifies vol
    ensures OthersKept(old(vol.V()), vol.V(), f)
    ensures var more := (|blocks| + 1) * BLOCK_SIZE;
      && c != V.Eof
      && (c == V.Invalid <==> |blocks| + 1 > MAX_BLOCKS)
      && (c == V.Success <==>
            |blocks| + 1 <= MAX_BLOCKS && V.Needed(old(vol.V()), f, more) <= |G.Available(old(vol.V()))|)
    ensures Mirrors(vol.V(), f, if c == V.Success then blocks + [stale] else blocks)
  {
    ghost var v := vol.V();
    CountBlocks(|blocks| + 1);
    var size := vol.files[f].size;
    c := vol.Resize(f, size + BLOCK_SIZE);
    ghost var w := vol.V();
    stale := [];
    if c == V.Success {
      var k: nat := size / BLOCK_SIZE;
      assert k == |blocks|;
      assert F.FileOk(w, f) && F.Holds(w, f, k);
      stale := vol.ReadBlock(f, k);
      forall i: nat | i < BLOCK_SIZE ensures F.Byte(w, f, |blocks| * BLOCK_SIZE + i) == stale[i] {
        BlockPlace(|blocks|, |blocks| * BLOCK_SIZE + i);
      }
      GrownMirrors(v, w, f, blocks, stale);
    } else {
      SameMirrors(v, w, f, blocks);
    }
  }

  lemma SameMirrors(v: F.Volume, w: F.Volume, f: nat, blocks: seq<Block>)
    requires Mirrors(v, f, blocks) && F.Ok(w) && w.files.Keys == v.files.Keys && G.SameBytes(v, w)
    ensures Mirrors(w, f, blocks)
  {
    hide F.Ok, F.Byte;
    forall p: nat | p < w.files[f].size ensures ByteIs(w, f, p, blocks) {
      assert ByteIs(v, f, p, blocks);
    }
  }

  /** ext2_directory_inode_insert on a directory in file `f`: its outcome by the room in the directory and on the
      volume. File and directory agree after it, in every outcome, and no other file changes. */
  method InsertEntry(vol: V.Ext2, f: nat, d: D.Directory, ino: nat, name: seq<Octet>, kind: nat) returns (code: D.Code)
    requires Mirrors(vol.V(), f, d.blocks) && d.Valid() && 0 < ino < 0x1_0000_0000 && |name| < 256
    modifies vol, d
    ensures Mirrors(vol.V(), f, d.blocks) && OthersKept(old(vol.V()), vol.V(), f)
    ensures var full, more := D.Full(old(d.slots), E.HEAD + E.Round4(|name|)), (|old(d.blocks)| + 1) * BLOCK_SIZE;
      code ==
        if full && |old(d.blocks)| + 1 > MAX_BLOCKS then D.Invalid
        else if full && V.Needed(old(vol.V()), f, more) > |G.Available(old(vol.V()))| then D.NoEntry
        else if d.typed && kind > 7 then D.Invalid
        else D.Success
    ensures code == D.Success ==>
      d.Valid() && D.OneMore(D.Entries(old(d.slots)), D.Entries(d.slots), (name, ino, if d.typed then kind else 0))
  {
    hide F.Ok, F.Byte, D.Entries, D.OneMore, G.Available, V.Needed, D.AllTiled;
    ghost var before := d.blocks;
    var found, _, _, _, _, _ := d.FindBlock(E.HEAD + E.Round4(|name|));
    var growth, stale: Block := D.Success, [];
    if !found {
      var c;
      c, stale := Grow(vol, f, before);
      growth := Passed(c);
    }
    ghost var w, mid := vol.V(), if !found && growth == D.Success then before + [stale] else before;
    var at;
    code, at := d.Insert(ino, name, kind, growth, stale);
    if code == D.Success {
      BlockSize(d, at);
      assert d.blocks == mid[at := d.blocks[at]];
      vol.WriteRun(f, at * BLOCK_SIZE, d.blocks[at]);
      WrittenMirrors(w, vol.V(), f, mid, at, d.blocks[at]);
    } else {
      assert d.blocks == mid;
    }
  }

  lemma BlockSize(d: D.Directory, at: nat)
    requires d.Valid() && at < |d.blocks|
    ensures |d.blocks[at]| == BLOCK_SIZE
  {
    D.ValidAt(d.blocks, d.typed, d.slots, at);
  }
}
