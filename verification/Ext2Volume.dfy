/** Reading, writing and growing files on a volume. */
module Ext2Volume {
  import opened Ext2Layout
  import opened Ext2Files
  import opened Ext2Growth
  import opened Prelude

  datatype Code = Success | Eof | Invalid | NoEntry

  /** The bytes of a file after `buf` is written at `pos`. */
  function Spliced(s: seq<Octet>, pos: nat, buf: seq<Octet>): seq<Octet>
    requires pos <= |s|
  {
    s[..pos] + buf + (if pos + |buf| < |s| then s[pos + |buf|..] else [])
  }

  /** What a read gives after a write: the bytes written come back, the others are as before, and a write at
      the end appends. */
  lemma SplicedRead(s: seq<Octet>, pos: nat, buf: seq<Octet>)
    requires pos <= |s|
    ensures |Spliced(s, pos, buf)| == if pos + |buf| < |s| then |s| else pos + |buf|
    ensures Spliced(s, pos, buf)[pos..pos + |buf|] == buf
    ensures forall p | 0 <= p < |s| && !(pos <= p < pos + |buf|) :: Spliced(s, pos, buf)[p] == s[p]
    ensures pos == |s| ==> Spliced(s, pos, buf) == s + buf
  {
  }

  /** The blocks a file needs to grow to a size, with its indirect block if it has none yet. */
  function Needed(v: Volume, f: nat, size: nat): nat
    requires f in v.files && v.files[f].size <= size
  {
    Used(v, f, Count(size))
  }

  function Used(v: Volume, f: nat, n: nat): nat
    requires f in v.files && Count(v.files[f].size) <= n
  {
    var had := Count(v.files[f].size);
    n - had + if n > had && n > DIRECT_COUNT && v.files[f].indirect == 0 then 1 else 0
  }

  lemma SameBytesTwice(u: Volume, v: Volume, w: Volume)
    requires Ok(u) && Ok(v) && Ok(w) && SameFrame(u, v) && SameFrame(v, w)
    requires SameBytes(u, v) && SameBytes(v, w)
    ensures SameBytes(u, w)
  {
    assert forall g, p: nat | g in u.files && p < u.files[g].size :: Byte(w, g, p) == Byte(v, g, p);
  }

  /** From `v` to `w`, file `f` has been given blocks up to `k` and nothing else has changed. */
  ghost predicate Grown(v: Volume, w: Volume, f: nat, k: nat) {
    && Ok(v) && Ok(w) && SameFrame(v, w) && SameBytes(v, w) && f in v.files
    && Count(v.files[f].size) <= k
    && (forall i: nat | i < k :: HasBlock(w, f, i))
    && |Available(w)| + Used(v, f, k) == |Available(v)|
    && (w.files[f].indirect != 0 <==>
        v.files[f].indirect != 0 || (k > DIRECT_COUNT && k > Count(v.files[f].size)))
  }

  lemma GrownStart(v: Volume, f: nat)
    requires Ok(v) && f in v.files
    ensures Grown(v, v, f, Count(v.files[f].size))
  {
    assert FileOk(v, f);
  }

  lemma GrownStep(v: Volume, w: Volume, w': Volume, f: nat, k: nat)
    requires Grown(v, w, f, k) && Kept(w, w', f, k) && HasBlock(w', f, k)
    requires |Available(w')| == |Available(w)| - (if k >= DIRECT_COUNT && w.files[f].indirect == 0 then 2 else 1)
    requires w'.files[f].indirect != 0 <==> k >= DIRECT_COUNT || w.files[f].indirect != 0
    ensures Grown(v, w', f, k + 1)
  {
    SameBytesTwice(v, w, w');
    hide SameBytes, Byte, Available, Ok, FileOk, Count;
  }

  lemma CountMonotone(a: nat, b: nat)
    requires a <= b
    ensures Count(a) <= Count(b)
  {
  }

  /** A run of bytes that stays inside one block. */
  lemma BlockSlice(v: Volume, f: nat, pos: nat, n: nat)
    requires Ok(v) && f in v.files && 0 < n && pos + n <= v.files[f].size && pos % BLOCK_SIZE + n <= BLOCK_SIZE
    ensures HasBlock(v, f, pos / BLOCK_SIZE)
    ensures |v.files[f].direct| == DIRECT_COUNT
    ensures var b, o := GetIndex(v, f, pos / BLOCK_SIZE).value, pos % BLOCK_SIZE;
      b < |v.disk| && |v.disk[b]| == BLOCK_SIZE && v.disk[b][o..o + n] == Contents(v, f)[pos..pos + n]
  {
    InFile(v.files[f].size, pos);
    assert FileOk(v, f) && Holds(v, f, pos / BLOCK_SIZE);
    var b, o := GetIndex(v, f, pos / BLOCK_SIZE).value, pos % BLOCK_SIZE;
    var x, y := v.disk[b][o..o + n], Contents(v, f)[pos..pos + n];
    forall i | 0 <= i < n ensures x[i] == y[i] {
      SameBlock(pos, i);
    }
  }

  lemma SameBlock(pos: nat, i: nat)
    requires pos % BLOCK_SIZE + i < BLOCK_SIZE
    ensures (pos + i) / BLOCK_SIZE == pos / BLOCK_SIZE && (pos + i) % BLOCK_SIZE == pos % BLOCK_SIZE + i
  {
  }

  /** Position `p` lies in the run of `n` bytes at `pos`, or it lies outside, when it shares the block. */
  lemma InRun(pos: nat, n: nat, p: nat)
    requires pos % BLOCK_SIZE + n <= BLOCK_SIZE && p / BLOCK_SIZE == pos / BLOCK_SIZE
    ensures pos <= p < pos + n <==> pos % BLOCK_SIZE <= p % BLOCK_SIZE < pos % BLOCK_SIZE + n
    ensures p - pos == p % BLOCK_SIZE - pos % BLOCK_SIZE
  {
  }

  /** Writing a run inside one block changes those bytes of that file and nothing else. */
  lemma PutRun(v: Volume, f: nat, pos: nat, part: seq<Octet>, g: nat, p: nat)
    requires Ok(v) && f in v.files && part != [] && pos + |part| <= v.files[f].size
    requires pos % BLOCK_SIZE + |part| <= BLOCK_SIZE && g in v.files && p < v.files[g].size
    requires |v.files[f].direct| == DIRECT_COUNT && Holds(v, f, pos / BLOCK_SIZE)
    ensures var b := GetIndex(v, f, pos / BLOCK_SIZE).value;
      var v' := PutBlock(v, b, Overlay(v.disk[b], pos % BLOCK_SIZE, part));
      && Ok(v')
      && Byte(v', g, p) == if g == f && pos <= p < pos + |part| then part[p - pos] else Byte(v, g, p)
  {
    var k := pos / BLOCK_SIZE;
    var b := GetIndex(v, f, k).value;
    var data := Overlay(v.disk[b], pos % BLOCK_SIZE, part);
    PutDataByte(v, f, k, data, g, p);
    if pos <= p < pos + |part| {
      SameBlock(pos, p - pos);
    }
    if p / BLOCK_SIZE == k {
      InRun(pos, |part|, p);
    }
  }

  /** From the bytes after a write to the contents of the files: `v1` is the volume after the resize. */
  lemma WriteResult(v: Volume, v1: Volume, w: Volume, f: nat, pos: nat, buf: seq<Octet>)
    requires Ok(v) && Ok(v1) && Ok(w) && SameFrame(v, v1) && w.files == v1.files && f in v.files
    requires pos <= v.files[f].size
    requires v1.files[f].size == if pos + |buf| < v.files[f].size then v.files[f].size else pos + |buf|
    requires forall g | g in v.files && g != f :: v1.files[g].size == v.files[g].size
    requires forall g, p: nat | g in v.files && p < v.files[g].size ::
      p < v1.files[g].size && Byte(v1, g, p) == Byte(v, g, p)
    requires forall g, p: nat | g in w.files && p < w.files[g].size ::
      Byte(w, g, p) == if g == f && pos <= p < pos + |buf| then buf[p - pos] else Byte(v1, g, p)
    ensures Contents(w, f) == Spliced(Contents(v, f), pos, buf)
    ensures forall g | g in v.files && g != f :: Contents(w, g) == Contents(v, g)
  {
    hide Ok, Byte, GetIndex;
    SplicedRead(Contents(v, f), pos, buf);
    var x, y := Contents(w, f), Spliced(Contents(v, f), pos, buf);
    assert |x| == |y|;
    forall p: nat | p < |x| ensures x[p] == y[p] {
      if pos <= p < pos + |buf| {
        assert y[p] == y[pos..pos + |buf|][p - pos];
      }
    }
  }

  class Ext2 {
    var disk: seq<Block>
    var files: map<nat, Inode>
    var uses: map<nat, Use>
    const groups: seq<Group>
    const perGroup: nat

    ghost function V(): Volume
      reads this
    {
      Volume(disk, files, uses, groups, perGroup)
    }

    /** ext2_block_alloc: the first clear bit of the first group whose free count is not zero. */
    method BlockAlloc(use: Use) returns (r: Option<nat>, ghost i: nat, ghost j: nat)
      requires Ok(V())
      modifies this
      ensures r.None? <==> Available(old(V())) == {}
      ensures r.None? ==> V() == old(V())
      ensures r.Some? ==>
        && i < |groups| && j < perGroup && Clear(old(V()), i, j) && r.value == BlockNo(old(V()), i, j)
        && V() == Claim(old(V()), i, j, use)
        && forall a: nat, b: nat | a < |groups| && b < perGroup && Clear(old(V()), a, b) :: a > i || (a == i && b >= j)
    {
      ghost var v := V();
      for g := 0 to |groups|
        invariant V() == v
        invariant forall a: nat, b: nat | a < g && b < perGroup :: !Clear(v, a, b)
      {
        if groups[g].free != 0 {
          assert GroupOk(v, g);
          var b := groups[g].bitmap;
          for l := 0 to perGroup
            invariant V() == v
            invariant forall c: nat | c < l :: !Clear(v, g, c)
          {
            if !TestBit(disk[b], l) {
              disk := disk[b := SetBit(disk[b], l)];
              uses := uses[g * perGroup + l + 1 := use];
              assert (g, l) in Available(v);
              return Some(g * perGroup + l + 1), g, l;
            }
          }
        }
      }
      return None, 0, 0;
    }

    /** The part of ext2_inode_set_index that gives a file its indirect block. */
    method GiveIndirect(f: nat) returns (ok: bool)
      requires Ok(V()) && f in files && files[f].indirect == 0
      modifies this
      ensures Quiet(old(V()), V()) && old(uses).Keys <= uses.Keys
      ensures forall b | b in old(uses) :: uses[b] == old(uses)[b]
      ensures ok <==> Available(old(V())) != {}
      ensures ok ==> files[f].indirect != 0 && |Available(V())| == |Available(old(V()))| - 1
      ensures !ok ==> V() == old(V())
    {
      ghost var v := V();
      var r, i, j := BlockAlloc(Indirect(f));
      if r.None? {
        return false;
      }
      ClaimKeeps(v, i, j, Indirect(f));
      assert (i, j) in Available(v);
      ghost var v1 := V();
      files := files[f := files[f].(indirect := r.value)];
      AdoptKeeps(v1, f, r.value);
      QuietQuiet(v, v1, V());
      ok := true;
    }

    /** ext2_inode_set_index. False is an index out of range, or no block left for the indirect block. */
    method SetIndex(f: nat, k: nat, n: nat) returns (ok: bool)
      requires Ok(V()) && f in files && Count(files[f].size) <= k
      requires n < |disk| && n in uses && uses[n] == Data(f, k)
      modifies this
      ensures k >= MAX_BLOCKS ==> !ok && V() == old(V())
      ensures k < MAX_BLOCKS ==>
        && Kept(old(V()), V(), f, k)
        && var adopt := k >= DIRECT_COUNT && old(files)[f].indirect == 0;
        && (ok <==> !adopt || Available(old(V())) != {})
        && (ok ==>
              && HasBlock(V(), f, k)
              && |Available(V())| == |Available(old(V()))| - (if adopt then 1 else 0)
              && (V().files[f].indirect != 0 <==> adopt || old(files)[f].indirect != 0))
    {
      ghost var v := V();
      if k >= MAX_BLOCKS {
        return false;
      }
      if k >= DIRECT_COUNT && files[f].indirect == 0 {
        ok := GiveIndirect(f);
        if !ok {
          return;
        }
      }
      ghost var v2 := V();
      assert Quiet(v, v2);
      EnterKeeps(v2, f, k, n);
      QuietKept(v, v2, Enter(v2, f, k, n), f, k);
      assert FileOk(v2, f);
      if k < DIRECT_COUNT {
        files := files[f := files[f].(direct := files[f].direct[k := n])];
      } else {
        var b := files[f].indirect;
        disk := disk[b := PutAddress(disk[b], k - DIRECT_COUNT, n)];
      }
      assert V() == Enter(v2, f, k, n);
      ok := true;
    }

    /** One turn of the expanding loop of ext2_inode_resize. */
    method GrowOnce(f: nat, k: nat) returns (ok: bool)
      requires Ok(V()) && f in files && Count(files[f].size) <= k < MAX_BLOCKS
      modifies this
      ensures Kept(old(V()), V(), f, k)
      ensures var cost := if k >= DIRECT_COUNT && old(files)[f].indirect == 0 then 2 else 1;
        && (ok <==> cost <= |Available(old(V()))|)
        && (ok ==>
              && HasBlock(V(), f, k) && |Available(V())| == |Available(old(V()))| - cost
              && (files[f].indirect != 0 <==> k >= DIRECT_COUNT || old(files)[f].indirect != 0))
    {
      ghost var v := V();
      var r, i, j := BlockAlloc(Data(f, k));
      if r.None? {
        return false;
      }
      ClaimKeeps(v, i, j, Data(f, k));
      assert (i, j) in Available(v);
      ghost var v1 := V();
      assert |Available(v1)| == |Available(v)| - 1;
      assert v1.files == v.files;
      ok := SetIndex(f, k, r.value);
      QuietKept(v, v1, V(), f, k);
      assert Available(v1) != {} <==> |Available(v1)| > 0;
    }

    /** The expanding half of ext2_inode_resize. */
    method Resize(f: nat, size: nat) returns (code: Code)
      requires Ok(V()) && f in files && files[f].size <= size
      modifies this
      ensures Ok(V()) && SameFrame(old(V()), V())
      ensures code != Eof && (code == Invalid <==> Count(size) > MAX_BLOCKS)
      ensures code == Invalid ==> V() == old(V())
      ensures code == Success <==> Count(size) <= MAX_BLOCKS && Needed(old(V()), f, size) <= |Available(old(V()))|
      ensures code != Success ==> SameBytes(old(V()), V())
      ensures code == Success ==>
        && files[f].size == size
        && (forall g | g in files && g != f :: files[g].size == old(files)[g].size)
        && (forall g, p: nat | g in files && p < old(files)[g].size :: Byte(V(), g, p) == Byte(old(V()), g, p))
    {
      ghost var v := V();
      assert FileOk(v, f);
      if Count(size) > MAX_BLOCKS {
        return Invalid;
      }
      CountMonotone(files[f].size, size);
      var ok := GrowTo(f, Count(size));
      if !ok {
        return NoEntry;
      }
      ghost var v2 := V();
      files := files[f := files[f].(size := size)];
      ResizeKeeps(v2, f, size);
      hide Byte, Available;
      code := Success;
    }

    method GrowTo(f: nat, n: nat) returns (ok: bool)
      requires Ok(V()) && f in files && Count(files[f].size) <= n <= MAX_BLOCKS
      modifies this
      ensures Ok(V()) && SameFrame(old(V()), V()) && SameBytes(old(V()), V())
      ensures ok <==> Used(old(V()), f, n) <= |Available(old(V()))|
      ensures ok ==> Grown(old(V()), V(), f, n)
    {
      ghost var v := V();
      GrownStart(v, f);
      var k: nat := Count(files[f].size);
      while k < n
        invariant k <= n && Grown(v, V(), f, k)
      {
        ghost var w := V();
        ok := GrowOnce(f, k);
        if !ok {
          SameBytesTwice(v, w, V());
          return;
        }
        GrownStep(v, w, V(), f, k);
        k := k + 1;
      }
      ok := true;
    }

    /** ext2_vnode::read. */
    method Read(f: nat, pos: nat, sz: nat) returns (code: Code, data: seq<Octet>, pos': nat)
      requires Ok(V()) && f in files
      ensures code == if pos >= files[f].size then Eof else Success
      ensures code == Eof ==> data == [] && pos' == pos
      ensures code == Success ==>
        && pos' == pos + Min(sz, files[f].size - pos)
        && data == Contents(V(), f)[pos..pos']
    {
      data, pos' := [], pos;
      if pos >= files[f].size {
        return Eof, data, pos';
      }
      var size: nat := Min(sz, files[f].size - pos);
      ghost var end := pos + size;
      ghost var c := Contents(V(), f);
      assert |c| == files[f].size;
      hide Contents, Ok, GetIndex, HasBlock;
      while size > 0
        invariant pos <= pos' && pos' + size == end <= |c|
        invariant data == c[pos..pos']
        decreases size
      {
        var part := ReadRun(f, pos', size);
        data := data + part;
        pos', size := pos' + |part|, size - |part|;
      }
      code := Success;
    }

    /** One turn of the loop of ext2_vnode::read: up to the end of the block. */
    method ReadRun(f: nat, pos: nat, left: nat) returns (part: seq<Octet>)
      requires Ok(V()) && f in files && 0 < left && pos + left <= files[f].size
      ensures |part| == Min(left, BLOCK_SIZE - pos % BLOCK_SIZE)
      ensures part == Contents(V(), f)[pos..pos + |part|]
    {
      var o: nat, k: nat := pos % BLOCK_SIZE, pos / BLOCK_SIZE;
      var n: nat := Min(left, BLOCK_SIZE - o);
      BlockSlice(V(), f, pos, n);
      var b := ReadBlock(f, k);
      part := b[o..o + n];
    }

    /** ext2_inode_read_block. */
    method ReadBlock(f: nat, k: nat) returns (b: Block)
      requires Ok(V()) && f in files && HasBlock(V(), f, k)
      ensures |files[f].direct| == DIRECT_COUNT && b == disk[GetIndex(V(), f, k).value]
    {
      assert FileOk(V(), f);
      var n := IndexOf(f, k);
      b := disk[n];
    }

    /** ext2_inode_get_index, for a block the file has. */
    method IndexOf(f: nat, k: nat) returns (n: nat)
      requires Ok(V()) && f in files && HasBlock(V(), f, k)
      ensures |files[f].direct| == DIRECT_COUNT && n == GetIndex(V(), f, k).value
    {
      assert FileOk(V(), f);
      if k < DIRECT_COUNT {
        return files[f].direct[k];
      }
      n := Address(disk[files[f].indirect], k - DIRECT_COUNT);
    }

    /** One turn of the loop of ext2_vnode::write: a part of a block is read, changed and written back; a
        whole block is only written. */
    method WriteRun(f: nat, pos: nat, part: seq<Octet>)
      requires Ok(V()) && f in files && part != [] && pos + |part| <= files[f].size
      requires pos % BLOCK_SIZE + |part| <= BLOCK_SIZE
      modifies this
      ensures Ok(V()) && SameFrame(old(V()), V()) && files == old(files)
      ensures forall g, p: nat | g in files && p < files[g].size ::
        Byte(V(), g, p) == if g == f && pos <= p < pos + |part| then part[p - pos] else Byte(old(V()), g, p)
    {
      ghost var v := V();
      BlockSlice(v, f, pos, |part|);
      var k, o := pos / BLOCK_SIZE, pos % BLOCK_SIZE;
      var n := IndexOf(f, k);
      ghost var whole := Overlay(disk[n], o, part);
      if |part| != BLOCK_SIZE {
        var b := ReadBlock(f, k);
        disk := disk[n := b[..o] + part + b[o + |part|..]];
      } else {
        assert whole == part;
        disk := disk[n := part];
      }
      assert V() == PutBlock(v, n, whole);
      forall g, p: nat | g in files && p < files[g].size
        ensures Ok(V())
        ensures Byte(V(), g, p) == if g == f && pos <= p < pos + |part| then part[p - pos] else Byte(v, g, p)
      {
        PutRun(v, f, pos, part, g, p);
      }
      PutRun(v, f, pos, part, f, pos);
    }

    /** The loop of ext2_vnode::write, once the file is long enough. */
    method WriteAll(f: nat, pos: nat, buf: seq<Octet>) returns (written: nat, pos': nat)
      requires Ok(V()) && f in files && pos + |buf| <= files[f].size
      modifies this
      ensures Ok(V()) && SameFrame(old(V()), V()) && files == old(files)
      ensures written == |buf| && pos' == pos + |buf|
      ensures forall g, p: nat | g in files && p < files[g].size ::
        Byte(V(), g, p) == if g == f && pos <= p < pos' then buf[p - pos] else Byte(old(V()), g, p)
    {
      hide Byte, GetIndex, Ok;
      ghost var v := V();
      written, pos' := 0, pos;
      while written < |buf|
        invariant 0 <= written <= |buf| && pos' == pos + written
        invariant Ok(V()) && SameFrame(v, V()) && files == v.files
        invariant forall g, p: nat | g in files && p < files[g].size ::
          Byte(V(), g, p) == if g == f && pos <= p < pos' then buf[p - pos] else Byte(v, g, p)
      {
        var n: nat := Min(|buf| - written, BLOCK_SIZE - pos' % BLOCK_SIZE);
        WriteRun(f, pos', buf[written..written + n]);
        written, pos' := written + n, pos' + n;
      }
    }

    /** ext2_vnode::write. */
    method Write(f: nat, pos: nat, buf: seq<Octet>) returns (code: Code, written: nat, pos': nat)
      requires Ok(V()) && f in files
      modifies this
      ensures Ok(V()) && SameFrame(old(V()), V())
      ensures var size := old(files)[f].size;
        var end := if pos + |buf| < size then size else pos + |buf|;
        && (code == Eof <==> pos > size)
        && (code == Invalid <==> pos <= size && Count(end) > MAX_BLOCKS)
        && (code == NoEntry <==>
              pos <= size && Count(end) <= MAX_BLOCKS && Needed(old(V()), f, end) > |Available(old(V()))|)
      ensures code != Success ==> written == 0 && pos' == pos && SameBytes(old(V()), V())
      ensures code == Success ==>
        && written == |buf| && pos' == pos + |buf|
        && Contents(V(), f) == Spliced(Contents(old(V()), f), pos, buf)
        && forall g | g in files && g != f :: Contents(V(), g) == Contents(old(V()), g)
    {
      ghost var v := V();
      written, pos' := 0, pos;
      if pos > files[f].size {
        return Eof, written, pos';
      }
      var end := if pos + |buf| < files[f].size then files[f].size else pos + |buf|;
      code := Resize(f, end);
      if code != Success {
        return;
      }
      ghost var v1 := V();
      written, pos' := WriteAll(f, pos, buf);
      WriteResult(v, v1, V(), f, pos, buf);
    }
  }
}
