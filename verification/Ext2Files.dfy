/** A volume: the disk, the inodes in memory, and what every block in use is used for. A file's bytes are
    found through its direct blocks and one indirect block. */
module Ext2Files {
  import opened Ext2Layout
  import opened Prelude

  datatype Inode = Inode(size: nat, direct: seq<nat>, indirect: nat)

  /** `free` is the free-block count of the group, which allocation only compares with zero. */
  datatype Group = Group(bitmap: nat, free: nat)

  datatype Use = Data(file: nat, index: nat) | Indirect(file: nat) | Bitmap(group: nat) | Other

  datatype Volume = Volume(
    disk: seq<Block>, files: map<nat, Inode>, uses: map<nat, Use>, groups: seq<Group>, perGroup: nat)

  /** Block numbering: groups of `perGroup` blocks, counted from block one. */
  function BlockNo(v: Volume, i: nat, j: nat): nat {
    i * v.perGroup + j + 1
  }

  lemma BlockNoInjective(v: Volume, i: nat, j: nat, i': nat, j': nat)
    requires j < v.perGroup && j' < v.perGroup && BlockNo(v, i, j) == BlockNo(v, i', j')
    ensures i == i' && j == j'
  {
    var p := v.perGroup;
    assert i < i' ==> (i + 1) * p <= i' * p;
    assert i' < i ==> (i' + 1) * p <= i * p;
  }

  function Count(size: nat): nat {
    (size + BLOCK_SIZE - 1) / BLOCK_SIZE
  }

  ghost predicate Shape(v: Volume) {
    && |v.disk| <= 0x1_0000_0000 && v.perGroup <= BITS
    && (forall b | 0 <= b < |v.disk| :: |v.disk[b]| == BLOCK_SIZE)
  }

  /** A clear bit stands for a block on the disk that nothing uses. */
  ghost predicate GroupOk(v: Volume, i: nat)
    requires Shape(v) && i < |v.groups|
  {
    var b := v.groups[i].bitmap;
    && b < |v.disk| && b in v.uses && v.uses[b] == Bitmap(i)
    && forall j: nat | j < v.perGroup && !TestBit(v.disk[b], j) ::
      BlockNo(v, i, j) < |v.disk| && BlockNo(v, i, j) !in v.uses
  }

  /** ext2_inode_get_index, where the index is in the supported range. */
  function GetIndex(v: Volume, f: nat, k: nat): Option<nat>
    requires Shape(v) && f in v.files && |v.files[f].direct| == DIRECT_COUNT
  {
    var ino := v.files[f];
    if k < DIRECT_COUNT then Some(ino.direct[k])
    else if k < MAX_BLOCKS && ino.indirect != 0 && ino.indirect < |v.disk| then
      Some(Address(v.disk[ino.indirect], k - DIRECT_COUNT))
    else None
  }

  /** Block `k` of a file is there, and it is that file's own. */
  ghost predicate Holds(v: Volume, f: nat, k: nat)
    requires Shape(v) && f in v.files && |v.files[f].direct| == DIRECT_COUNT
  {
    && GetIndex(v, f, k).Some?
    && var b := GetIndex(v, f, k).value;
    && b < |v.disk| && b in v.uses && v.uses[b] == Data(f, k)
  }

  ghost predicate FileOk(v: Volume, f: nat)
    requires Shape(v) && f in v.files
  {
    var ino := v.files[f];
    && |ino.direct| == DIRECT_COUNT && Count(ino.size) <= MAX_BLOCKS
    && (ino.indirect != 0 ==>
          ino.indirect < |v.disk| && ino.indirect in v.uses && v.uses[ino.indirect] == Indirect(f))
    && (forall k: nat | k < Count(ino.size) :: Holds(v, f, k))
  }

  ghost predicate Ok(v: Volume) {
    && Shape(v)
    && (forall i: nat | i < |v.groups| :: GroupOk(v, i))
    && (forall f | f in v.files :: FileOk(v, f))
  }

  // ----- the bytes of a file

  lemma InFile(size: nat, p: nat)
    requires p < size
    ensures p / BLOCK_SIZE < Count(size)
  {
  }

  function Byte(v: Volume, f: nat, p: nat): Octet
    requires Ok(v) && f in v.files && p < v.files[f].size
  {
    InFile(v.files[f].size, p);
    assert FileOk(v, f) && Holds(v, f, p / BLOCK_SIZE);
    v.disk[GetIndex(v, f, p / BLOCK_SIZE).value][p % BLOCK_SIZE]
  }

  function Contents(v: Volume, f: nat): seq<Octet>
    requires Ok(v) && f in v.files
  {
    seq(v.files[f].size, p requires 0 <= p < v.files[f].size => Byte(v, f, p))
  }

  // ----- writing a data block

  function PutBlock(v: Volume, b: nat, data: Block): Volume
    requires b < |v.disk|
  {
    v.(disk := v.disk[b := data])
  }

  /** Writing a data block changes no block list and no bitmap. */
  lemma PutDataKeeps(v: Volume, f: nat, k: nat, data: Block)
    requires Ok(v) && f in v.files && |v.files[f].direct| == DIRECT_COUNT && Holds(v, f, k) && |data| == BLOCK_SIZE
    ensures var v' := PutBlock(v, GetIndex(v, f, k).value, data);
      && Ok(v')
      && (forall g, i: nat | g in v.files :: |v'.files[g].direct| == DIRECT_COUNT && GetIndex(v', g, i) == GetIndex(v, g, i))
      && (forall g, i: nat | g in v.files && Holds(v, g, i) :: Holds(v', g, i))
  {
    var b := GetIndex(v, f, k).value;
    var v' := PutBlock(v, b, data);
    assert Shape(v');
    forall g, i: nat | g in v.files ensures |v'.files[g].direct| == DIRECT_COUNT && GetIndex(v', g, i) == GetIndex(v, g, i) {
      assert FileOk(v, g);
    }
    forall i: nat | i < |v.groups| ensures GroupOk(v', i) {
      assert GroupOk(v, i);
    }
    forall g | g in v.files ensures FileOk(v', g) {
      assert FileOk(v, g);
      forall i: nat | i < Count(v.files[g].size) ensures Holds(v', g, i) {
        assert Holds(v, g, i);
      }
    }
  }

  /** It changes that block of that file, and no other byte of any file. */
  lemma PutDataByte(v: Volume, f: nat, k: nat, data: Block, g: nat, p: nat)
    requires Ok(v) && f in v.files && |v.files[f].direct| == DIRECT_COUNT && Holds(v, f, k) && |data| == BLOCK_SIZE
    requires g in v.files && p < v.files[g].size
    ensures var v' := PutBlock(v, GetIndex(v, f, k).value, data);
      && Ok(v')
      && Byte(v', g, p) == if g == f && p / BLOCK_SIZE == k then data[p % BLOCK_SIZE] else Byte(v, g, p)
  {
    PutDataKeeps(v, f, k, data);
    InFile(v.files[g].size, p);
    assert FileOk(v, g) && Holds(v, g, p / BLOCK_SIZE);
  }
}
