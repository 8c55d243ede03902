/** Blocks as bytes: block addresses stored little-endian, and allocation bitmaps. The block size is the one
    the write buffer is made for. */
module Ext2Layout {
  import opened Bits
  import opened Prelude

  const BLOCK_SIZE: nat := 1024
  const DIRECT_COUNT: nat := 12
  const ADDR_COUNT: nat := 256
  const MAX_BLOCKS: nat := 268
  const BITS: nat := 8192

  type Block = seq<Octet>

  /** A block with `part` laid over it at `o`. */
  function Overlay(b: Block, o: nat, part: seq<Octet>): Block
    requires o + |part| <= |b|
  {
    b[..o] + part + b[o + |part|..]
  }

  /** What lies outside the part laid over is unchanged. */
  lemma OverlayAt(b: Block, o: nat, part: seq<Octet>, x: nat, y: nat)
    requires o + |part| <= |b| && x <= y <= |b|
    ensures |Overlay(b, o, part)| == |b|
    ensures o <= x && y <= o + |part| ==> Overlay(b, o, part)[x..y] == part[x - o..y - o]
    ensures y <= o || o + |part| <= x ==> Overlay(b, o, part)[x..y] == b[x..y]
  {
    var r := Overlay(b, o, part);
    if o <= x && y <= o + |part| {
      var p, q := r[x..y], part[x - o..y - o];
      assert forall i | 0 <= i < y - x :: p[i] == r[x + i] == q[i];
    } else if y <= o || o + |part| <= x {
      var p, q := r[x..y], b[x..y];
      assert forall i | 0 <= i < y - x :: p[i] == r[x + i] == b[x + i] == q[i];
    }
  }

  /** The 32-bit address at place `k` of an indirect block. */
  function Address(b: Block, k: nat): nat
    requires |b| == BLOCK_SIZE && k < ADDR_COUNT
  {
    var b0: nat, b1: nat, b2: nat, b3: nat := b[4 * k], b[4 * k + 1], b[4 * k + 2], b[4 * k + 3];
    b0 + 256 * b1 + 65536 * b2 + 16777216 * b3
  }

  function PutAddress(b: Block, k: nat, v: nat): Block
    requires |b| == BLOCK_SIZE && k < ADDR_COUNT && v < 0x1_0000_0000
  {
    b[4 * k := v % 256][4 * k + 1 := v / 256 % 256][4 * k + 2 := v / 65536 % 256][4 * k + 3 := v / 16777216]
  }

  lemma Digits(v: nat)
    requires v < 0x1_0000_0000
    ensures v % 256 + 256 * (v / 256 % 256) + 65536 * (v / 65536 % 256) + 16777216 * (v / 16777216) == v
  {
  }

  /** Storing an address changes that address only. */
  lemma PutAddressAt(b: Block, k: nat, v: nat, j: nat)
    requires |b| == BLOCK_SIZE && k < ADDR_COUNT && v < 0x1_0000_0000 && j < ADDR_COUNT
    ensures |PutAddress(b, k, v)| == BLOCK_SIZE
    ensures Address(PutAddress(b, k, v), j) == if j == k then v else Address(b, j)
  {
    Digits(v);
  }

  /** Bitwise or with the mask of bit `k`. */
  function WithBit(n: nat, k: nat): nat
    decreases k
  {
    if k == 0 then n / 2 * 2 + 1 else n % 2 + 2 * WithBit(n / 2, k - 1)
  }

  lemma {:induction false} WithBitAt(n: nat, k: nat, j: nat)
    ensures Bit(WithBit(n, k), j) <==> j == k || Bit(n, j)
    decreases k
  {
    if k > 0 && j > 0 {
      WithBitAt(n / 2, k - 1, j - 1);
    }
  }

  lemma {:induction false} WithBitBound(n: nat, k: nat, w: nat)
    requires n < Pow2(w) && k < w
    ensures WithBit(n, k) < Pow2(w)
    decreases k
  {
    var p := Pow2(w - 1);
    assert n < 2 * p;
    if k > 0 {
      WithBitBound(n / 2, k - 1, w - 1);
      assert WithBit(n / 2, k - 1) < p;
    }
  }

  /** Bit `j` of a bitmap read as little-endian 64-bit words. */
  predicate TestBit(b: Block, j: nat)
    requires |b| == BLOCK_SIZE && j < BITS
  {
    Bit(b[j / 8], j % 8)
  }

  function SetBit(b: Block, j: nat): Block
    requires |b| == BLOCK_SIZE && j < BITS
  {
    assert Pow2(8) == 256;
    WithBitBound(b[j / 8], j % 8, 8);
    b[j / 8 := WithBit(b[j / 8], j % 8)]
  }

  lemma SetBitAt(b: Block, j: nat, i: nat)
    requires |b| == BLOCK_SIZE && j < BITS && i < BITS
    ensures TestBit(SetBit(b, j), i) <==> i == j || TestBit(b, i)
  {
    WithBitAt(b[j / 8], j % 8, i % 8);
    hide Bit, WithBit;
  }
}
