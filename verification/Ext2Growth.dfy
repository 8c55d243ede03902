/** The steps that grow a file: claiming a clear block, entering it in a block list, adopting an indirect
    block, and setting the size. */
module Ext2Growth {
  import opened Ext2Layout
  import opened Ext2Files
  import opened Prelude

  /** The blocks allocation can give, by group and bit. */
  ghost function Available(v: Volume): set<(nat, nat)>
    requires Ok(v)
  {
    set i: nat, j: nat | i < |v.groups| && j < v.perGroup && Clear(v, i, j) :: (i, j)
  }

  predicate Clear(v: Volume, i: nat, j: nat)
    requires Ok(v) && i < |v.groups| && j < v.perGroup
  {
    assert GroupOk(v, i);
    v.groups[i].free != 0 && !TestBit(v.disk[v.groups[i].bitmap], j)
  }

  ghost predicate SameFrame(v: Volume, v': Volume) {
    |v'.disk| == |v.disk| && v'.groups == v.groups && v'.perGroup == v.perGroup && v'.files.Keys == v.files.Keys
  }

  /** No file changes its size or a byte. */
  ghost predicate SameBytes(v: Volume, v': Volume)
    requires Ok(v) && Ok(v') && v'.files.Keys == v.files.Keys
  {
    && (forall g | g in v.files :: v'.files[g].size == v.files[g].size)
    && (forall g, p: nat | g in v.files && p < v.files[g].size :: Byte(v', g, p) == Byte(v, g, p))
  }

  /** No file changes, and every block in a block list stays, but for entry `k` of file `f`. */
  ghost predicate Kept(v: Volume, v': Volume, f: nat, k: nat) {
    && Ok(v) && Ok(v') && SameFrame(v, v') && SameBytes(v, v')
    && (forall g, i: nat | g in v.files && !(g == f && i == k) :: HasBlock(v, g, i) ==> HasBlock(v', g, i))
  }

  ghost predicate HasBlock(v: Volume, f: nat, k: nat)
    requires Ok(v) && f in v.files
  {
    assert FileOk(v, f);
    Holds(v, f, k)
  }

  ghost predicate Quiet(v: Volume, v': Volume) {
    && Ok(v) && Ok(v') && SameFrame(v, v') && SameBytes(v, v')
    && (forall g, i: nat | g in v.files :: HasBlock(v, g, i) ==> HasBlock(v', g, i))
  }

  lemma QuietKept(u: Volume, v: Volume, w: Volume, f: nat, k: nat)
    requires Quiet(u, v) && Kept(v, w, f, k)
    ensures Kept(u, w, f, k)
  {
    assert forall g, p: nat | g in u.files && p < u.files[g].size :: Byte(w, g, p) == Byte(v, g, p);
  }

  lemma QuietQuiet(u: Volume, v: Volume, w: Volume)
    requires Quiet(u, v) && Quiet(v, w)
    ensures Quiet(u, w)
  {
    assert forall g, p: nat | g in u.files && p < u.files[g].size :: Byte(w, g, p) == Byte(v, g, p);
  }

  // ----- claiming a block

  function Claim(v: Volume, i: nat, j: nat, use: Use): Volume
    requires Ok(v) && i < |v.groups| && j < v.perGroup
  {
    assert GroupOk(v, i);
    var b := v.groups[i].bitmap;
    v.(disk := v.disk[b := SetBit(v.disk[b], j)], uses := v.uses[BlockNo(v, i, j) := use])
  }

  lemma ClaimGroups(v: Volume, i: nat, j: nat, use: Use)
    requires Ok(v) && i < |v.groups| && j < v.perGroup && Clear(v, i, j)
    ensures var v' := Claim(v, i, j, use);
      Shape(v') && forall g: nat | g < |v.groups| :: GroupOk(v', g)
  {
    var v' := Claim(v, i, j, use);
    assert GroupOk(v, i);
    assert Shape(v');
    forall g: nat | g < |v.groups| ensures GroupOk(v', g) {
      assert GroupOk(v, g);
      forall l: nat | l < v.perGroup && !TestBit(v'.disk[v.groups[g].bitmap], l)
        ensures BlockNo(v', g, l) < |v.disk| && BlockNo(v', g, l) !in v'.uses
      {
        ClaimBit(v, i, j, use, g, l);
        if BlockNo(v, g, l) == BlockNo(v, i, j) {
          BlockNoInjective(v, g, l, i, j);
        }
      }
    }
  }

  lemma ClaimBit(v: Volume, i: nat, j: nat, use: Use, g: nat, l: nat)
    requires Ok(v) && i < |v.groups| && j < v.perGroup && g < |v.groups| && l < v.perGroup
    requires v.groups[g].bitmap < |v.disk| && v.perGroup <= BITS
    ensures var v' := Claim(v, i, j, use);
      && |v'.disk| == |v.disk| && |v'.disk[v.groups[g].bitmap]| == BLOCK_SIZE
      && (TestBit(v'.disk[v.groups[g].bitmap], l) <==> (g == i && l == j) || TestBit(v.disk[v.groups[g].bitmap], l))
  {
    assert GroupOk(v, i) && GroupOk(v, g);
    SetBitAt(v.disk[v.groups[i].bitmap], j, l);
    hide TestBit, SetBit;
  }

  /** Claiming changes no block list. */
  lemma ClaimIndex(v: Volume, i: nat, j: nat, use: Use, f: nat, k: nat)
    requires Ok(v) && i < |v.groups| && j < v.perGroup && Clear(v, i, j) && f in v.files
    ensures var v' := Claim(v, i, j, use);
      && Shape(v') && |v.files[f].direct| == DIRECT_COUNT && GetIndex(v', f, k) == GetIndex(v, f, k)
      && (Holds(v, f, k) ==> Holds(v', f, k) && v'.disk[GetIndex(v, f, k).value] == v.disk[GetIndex(v, f, k).value])
  {
    ClaimGroups(v, i, j, use);
    assert GroupOk(v, i) && FileOk(v, f);
    hide TestBit, SetBit, Address;
  }

  lemma ClaimKeeps(v: Volume, i: nat, j: nat, use: Use)
    requires Ok(v) && i < |v.groups| && j < v.perGroup && Clear(v, i, j)
    ensures var v', n := Claim(v, i, j, use), BlockNo(v, i, j);
      && Quiet(v, v')
      && 0 < n < |v.disk| && n !in v.uses && v'.uses == v.uses[n := use] && v'.files == v.files
      && Available(v') == Available(v) - {(i, j)}
  {
    var v', n := Claim(v, i, j, use), BlockNo(v, i, j);
    assert GroupOk(v, i);
    ClaimGroups(v, i, j, use);
    forall f | f in v.files ensures FileOk(v', f) {
      assert FileOk(v, f);
      forall k: nat | k < Count(v.files[f].size) ensures Holds(v', f, k) {
        ClaimIndex(v, i, j, use, f, k);
      }
    }
    assert Ok(v');
    forall f, k: nat | f in v.files ensures HasBlock(v, f, k) ==> HasBlock(v', f, k) {
      ClaimIndex(v, i, j, use, f, k);
    }
    ClaimBytes(v, i, j, use);
    forall g: nat, l: nat | g < |v.groups| && l < v.perGroup
      ensures Clear(v', g, l) <==> Clear(v, g, l) && !(g == i && l == j)
    {
      assert GroupOk(v, g);
      ClaimBit(v, i, j, use, g, l);
    }
    ClaimedAvailable(v, v', i, j);
    hide SameBytes, Available, TestBit, SetBit;
  }

  lemma ClaimBytes(v: Volume, i: nat, j: nat, use: Use)
    requires Ok(v) && i < |v.groups| && j < v.perGroup && Clear(v, i, j) && Ok(Claim(v, i, j, use))
    ensures SameBytes(v, Claim(v, i, j, use))
  {
    var v' := Claim(v, i, j, use);
    forall f, p: nat | f in v.files && p < v.files[f].size ensures Byte(v', f, p) == Byte(v, f, p) {
      InFile(v.files[f].size, p);
      assert FileOk(v, f) && Holds(v, f, p / BLOCK_SIZE);
      ClaimIndex(v, i, j, use, f, p / BLOCK_SIZE);
    }
  }

  lemma ClaimedAvailable(v: Volume, v': Volume, i: nat, j: nat)
    requires Ok(v) && Ok(v') && v'.groups == v.groups && v'.perGroup == v.perGroup
    requires forall g: nat, l: nat | g < |v.groups| && l < v.perGroup ::
      Clear(v', g, l) <==> Clear(v, g, l) && !(g == i && l == j)
    ensures Available(v') == Available(v) - {(i, j)}
  {
    hide Clear, Ok;
  }

  // ----- entering a block in a block list

  function SetFile(v: Volume, f: nat, ino: Inode): Volume {
    v.(files := v.files[f := ino])
  }

  /** Entry `k` of file `f` becomes block `n`. */
  function Enter(v: Volume, f: nat, k: nat, n: nat): Volume
    requires Ok(v) && f in v.files && k < MAX_BLOCKS && n < 0x1_0000_0000
    requires k >= DIRECT_COUNT ==> v.files[f].indirect != 0
  {
    var ino := v.files[f];
    assert FileOk(v, f);
    if k < DIRECT_COUNT then SetFile(v, f, ino.(direct := ino.direct[k := n]))
    else PutBlock(v, ino.indirect, PutAddress(v.disk[ino.indirect], k - DIRECT_COUNT, n))
  }

  /** Entering a block changes that entry and no other. */
  lemma EnterIndex(v: Volume, f: nat, k: nat, n: nat, g: nat, i: nat)
    requires Ok(v) && f in v.files && k < MAX_BLOCKS && n < 0x1_0000_0000 && g in v.files
    requires k >= DIRECT_COUNT ==> v.files[f].indirect != 0
    ensures var v' := Enter(v, f, k, n);
      && Shape(v') && |v.files[g].direct| == DIRECT_COUNT && |v'.files[g].direct| == DIRECT_COUNT
      && GetIndex(v', g, i) == (if g == f && i == k then Some(n) else GetIndex(v, g, i))
  {
    assert FileOk(v, f) && FileOk(v, g);
    if k >= DIRECT_COUNT {
      var b := v.disk[v.files[f].indirect];
      PutAddressAt(b, k - DIRECT_COUNT, n, 0);
      if DIRECT_COUNT <= i < MAX_BLOCKS {
        PutAddressAt(b, k - DIRECT_COUNT, n, i - DIRECT_COUNT);
      }
    }
    hide PutAddress, Address;
  }

  lemma EnterKeeps(v: Volume, f: nat, k: nat, n: nat)
    requires Ok(v) && f in v.files && Count(v.files[f].size) <= k < MAX_BLOCKS
    requires n < |v.disk| && n < 0x1_0000_0000 && n in v.uses && v.uses[n] == Data(f, k)
    requires k >= DIRECT_COUNT ==> v.files[f].indirect != 0
    ensures var v' := Enter(v, f, k, n);
      && Kept(v, v', f, k) && HasBlock(v', f, k)
      && v'.files[f].size == v.files[f].size && v'.files[f].indirect == v.files[f].indirect
      && Available(v') == Available(v)
  {
    var v' := Enter(v, f, k, n);
    EnterIndex(v, f, k, n, f, k);
    forall g, i: nat | g in v.files
      ensures Shape(v') && |v.files[g].direct| == DIRECT_COUNT && |v'.files[g].direct| == DIRECT_COUNT
      ensures GetIndex(v', g, i) == if g == f && i == k then Some(n) else GetIndex(v, g, i)
    {
      EnterIndex(v, f, k, n, g, i);
    }
    assert FileOk(v, f);
    forall g: nat | g < |v.groups| ensures GroupOk(v', g) && v'.disk[v.groups[g].bitmap] == v.disk[v.groups[g].bitmap] {
      assert GroupOk(v, g);
    }
    forall g | g in v.files ensures FileOk(v', g) {
      assert FileOk(v, g);
      forall i: nat | i < Count(v.files[g].size) ensures Holds(v', g, i) {
        assert Holds(v, g, i);
      }
    }
    assert Ok(v');
    EnterBytes(v, f, k, n);
    forall i: nat, j: nat | i < |v.groups| && j < v.perGroup ensures Clear(v', i, j) <==> Clear(v, i, j) {
    }
    SameAvailable(v, v');
    hide Enter, Clear;
  }

  lemma EnterBytes(v: Volume, f: nat, k: nat, n: nat)
    requires Ok(v) && f in v.files && Count(v.files[f].size) <= k < MAX_BLOCKS && n < 0x1_0000_0000
    requires k >= DIRECT_COUNT ==> v.files[f].indirect != 0
    requires Ok(Enter(v, f, k, n))
    ensures SameBytes(v, Enter(v, f, k, n))
  {
    var v' := Enter(v, f, k, n);
    assert FileOk(v, f);
    forall g, p: nat | g in v.files && p < v.files[g].size ensures Byte(v', g, p) == Byte(v, g, p) {
      InFile(v.files[g].size, p);
      assert FileOk(v, g) && Holds(v, g, p / BLOCK_SIZE);
      EnterIndex(v, f, k, n, g, p / BLOCK_SIZE);
    }
  }

  lemma SameAvailable(v: Volume, v': Volume)
    requires Ok(v) && Ok(v') && v'.groups == v.groups && v'.perGroup == v.perGroup
    requires forall i: nat, j: nat | i < |v.groups| && j < v.perGroup :: Clear(v', i, j) <==> Clear(v, i, j)
    ensures Available(v') == Available(v)
  {
    hide Clear, Ok;
  }

  /** The first block past the direct ones needs an indirect block, taken over with whatever it holds. */
  lemma AdoptKeeps(v: Volume, f: nat, n: nat)
    requires Ok(v) && f in v.files && v.files[f].indirect == 0
    requires 0 < n < |v.disk| && n in v.uses && v.uses[n] == Indirect(f)
    ensures var v' := SetFile(v, f, v.files[f].(indirect := n));
      Quiet(v, v') && Available(v') == Available(v)
  {
    var v' := SetFile(v, f, v.files[f].(indirect := n));
    forall g: nat | g < |v.groups| ensures GroupOk(v', g) {
      assert GroupOk(v, g);
    }
    forall g | g in v.files ensures FileOk(v', g) {
      assert FileOk(v, g);
      forall i: nat | i < Count(v.files[g].size) ensures Holds(v', g, i) {
        assert Holds(v, g, i);
      }
    }
    forall g, p: nat | g in v.files && p < v.files[g].size ensures Byte(v', g, p) == Byte(v, g, p) {
      InFile(v.files[g].size, p);
      assert FileOk(v, g) && Holds(v, g, p / BLOCK_SIZE);
    }
    forall g, i: nat | g in v.files ensures HasBlock(v, g, i) ==> HasBlock(v', g, i) {
      assert FileOk(v, g) && FileOk(v', g);
    }
    SameAvailable(v, v');
  }

  /** Growing the size keeps the bytes there were; the new ones are what the blocks hold. */
  lemma ResizeKeeps(v: Volume, f: nat, size: nat)
    requires Ok(v) && f in v.files && v.files[f].size <= size && Count(size) <= MAX_BLOCKS
    requires forall k: nat | k < Count(size) :: HasBlock(v, f, k)
    ensures var v' := SetFile(v, f, v.files[f].(size := size));
      && Ok(v') && SameFrame(v, v')
      && (forall g, p: nat | g in v.files && p < v.files[g].size :: Byte(v', g, p) == Byte(v, g, p))
      && (forall g | g in v.files && g != f :: v'.files[g] == v.files[g])
  {
    var v' := SetFile(v, f, v.files[f].(size := size));
    forall g: nat | g < |v.groups| ensures GroupOk(v', g) {
      assert GroupOk(v, g);
    }
    forall g | g in v.files ensures FileOk(v', g) {
      assert FileOk(v, g);
      forall i: nat | i < Count(v'.files[g].size) ensures Holds(v', g, i) {
        assert g != f ==> Holds(v, g, i);
        assert g == f ==> HasBlock(v, g, i);
      }
    }
    forall g, p: nat | g in v.files && p < v.files[g].size ensures Byte(v', g, p) == Byte(v, g, p) {
      InFile(v.files[g].size, p);
      assert FileOk(v, g) && Holds(v, g, p / BLOCK_SIZE);
    }
  }
}
