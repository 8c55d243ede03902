/** Natural numbers read as bit strings: powers of two, `^`, `&` and alignment.

    Bit tests and alignment are defined by halving, so that facts about them follow
    by induction on the bit number with linear arithmetic only. */
module Bits {

  function Pow2(n: nat): (p: nat)
    ensures p >= 1
  {
    if n == 0 then 1 else 2 * Pow2(n - 1)
  }

  /** Bitwise exclusive or. */
  function Xor(a: nat, b: nat): nat
    decreases a + b
  {
    if a == 0 && b == 0 then 0
    else (if a % 2 != b % 2 then 1 else 0) + 2 * Xor(a / 2, b / 2)
  }

  /** Bitwise and. */
  function And(a: nat, b: nat): nat
    decreases a + b
  {
    if a == 0 || b == 0 then 0
    else (if a % 2 == 1 && b % 2 == 1 then 1 else 0) + 2 * And(a / 2, b / 2)
  }

  /** The largest `k` with `2^k <= n`. */
  function FloorLog2(n: nat): (k: nat)
    requires n > 0
    ensures Pow2(k) <= n < Pow2(k + 1)
  {
    if n == 1 then 0 else FloorLog2(n / 2) + 1
  }

  /** Bit `o` of `i`. */
  predicate Bit(i: nat, o: nat)
    decreases o
  {
    if o == 0 then i % 2 == 1 else Bit(i / 2, o - 1)
  }

  /** The low `o` bits of `i` are clear. */
  predicate Aligned(i: nat, o: nat)
    decreases o
  {
    o == 0 || (i % 2 == 0 && Aligned(i / 2, o - 1))
  }

  lemma {:induction false} Pow2Monotone(a: nat, b: nat)
    requires a <= b
    ensures Pow2(a) <= Pow2(b)
    ensures a < b ==> 2 * Pow2(a) <= Pow2(b)
    decreases b
  {
    if a < b {
      Pow2Monotone(a, b - 1);
    }
  }

  /** `i ^ (1 << o)` toggles bit `o`. */
  lemma {:induction false} XorBit(i: nat, o: nat)
    ensures Bit(i, o) ==> i >= Pow2(o)
    ensures Xor(i, Pow2(o)) == if Bit(i, o) then i - Pow2(o) else i + Pow2(o)
    decreases o
  {
    if o == 0 {
      XorZero(i / 2);
    } else {
      XorBit(i / 2, o - 1);
      var p := Pow2(o - 1);
      assert Pow2(o) == 2 * p && 2 * p / 2 == p && 2 * p % 2 == 0;
      assert Xor(i, 2 * p) == i % 2 + 2 * Xor(i / 2, p);
    }
  }

  lemma {:induction false} XorZero(i: nat)
    ensures Xor(i, 0) == i
  {
    if i > 0 {
      XorZero(i / 2);
    }
  }

  /** `i & (1 << o)` tests bit `o`. */
  lemma {:induction false} AndBit(i: nat, o: nat)
    ensures And(i, Pow2(o)) == if Bit(i, o) then Pow2(o) else 0
    decreases o
  {
    if o > 0 {
      AndBit(i / 2, o - 1);
    } else {
      assert i > 0 ==> And(i / 2, 0) == 0;
    }
  }

  /** `i & ((1 << o) - 1)` is zero exactly when `i` is aligned. */
  lemma {:induction false} AndMask(i: nat, o: nat)
    ensures And(i, Pow2(o) - 1) == 0 <==> Aligned(i, o)
    decreases o
  {
    if o > 0 {
      AndMask(i / 2, o - 1);
      assert (Pow2(o) - 1) / 2 == Pow2(o - 1) - 1;
      if i == 0 {
        AlignedZero(o);
      }
    }
  }

  lemma {:induction false} AlignedZero(o: nat)
    ensures Aligned(0, o)
  {
    if o > 0 {
      AlignedZero(o - 1);
    }
  }

  lemma {:induction false} AndSelf(i: nat)
    ensures And(i, i) == i
  {
    if i > 0 {
      AndSelf(i / 2);
    }
  }

  /** `i & (i ^ (1 << o))` clears bit `o`. */
  lemma {:induction false} AndXor(i: nat, o: nat)
    ensures Bit(i, o) ==> i >= Pow2(o)
    ensures And(i, Xor(i, Pow2(o))) == if Bit(i, o) then i - Pow2(o) else i
    decreases o
  {
    XorBit(i, o);
    if o == 0 {
      XorZero(i / 2);
      AndSelf(i / 2);
    } else {
      AndXor(i / 2, o - 1);
    }
  }

  /** An aligned number is aligned one bit further exactly when that bit is clear. */
  lemma {:induction false} AlignStep(i: nat, o: nat)
    requires Aligned(i, o)
    ensures Aligned(i, o + 1) <==> !Bit(i, o)
    ensures Bit(i, o) ==> i >= Pow2(o) && Aligned(i - Pow2(o), o + 1)
    ensures Aligned(i + Pow2(o), o)
    ensures Bit(i, o) ==> Aligned(i + Pow2(o), o + 1)
    ensures Bit(i + Pow2(o), o) <==> !Bit(i, o)
    decreases o
  {
    if o > 0 {
      AlignStep(i / 2, o - 1);
      assert (i + Pow2(o)) / 2 == i / 2 + Pow2(o - 1);
      assert Bit(i, o) ==> (i - Pow2(o)) / 2 == i / 2 - Pow2(o - 1);
    }
  }

  /** Alignment to a power of two gives alignment to every smaller one. */
  lemma {:induction false} AlignDown(i: nat, lo: nat, hi: nat)
    requires lo <= hi && Aligned(i, hi)
    ensures Aligned(i, lo)
    decreases lo
  {
    if lo > 0 {
      AlignDown(i / 2, lo - 1, hi - 1);
    }
  }

  /** Two aligned blocks that meet are nested, the smaller inside the larger. */
  lemma {:induction false} AlignedNest(i: nat, o: nat, j: nat, p: nat)
    requires o <= p && Aligned(i, o) && Aligned(j, p)
    requires i < j + Pow2(p) && j < i + Pow2(o)
    ensures j <= i && i + Pow2(o) <= j + Pow2(p)
    decreases o
  {
    if o > 0 {
      AlignedNest(i / 2, o - 1, j / 2, p - 1);
    }
  }

  /** Two aligned blocks of one size that are neighbours, the lower one aligned one bit further,
      fill a block of twice the size. */
  lemma {:induction false} AlignedSplit(i: nat, o: nat)
    requires Aligned(i, o + 1)
    ensures Aligned(i, o) && Aligned(i + Pow2(o), o)
    ensures !Bit(i, o) && Bit(i + Pow2(o), o)
  {
    AlignDown(i, o, o + 1);
    AlignStep(i, o);
  }
}
