/** Optional values, numbers as bytes, and sequences without repetition. */
module Prelude {

  datatype Option<+T> = None | Some(value: T)

  function Min(a: nat, b: nat): nat {
    if a < b then a else b
  }

  type Octet = n: nat | n < 256

  /** A number in `n` bytes, low byte first. */
  function Bytes(v: nat, n: nat): (r: seq<Octet>)
    ensures |r| == n
  {
    if n == 0 then [] else [v % 256] + Bytes(v / 256, n - 1)
  }

  function Number(s: seq<Octet>): nat {
    if s == [] then 0
    else
      var low: nat := s[0];
      low + 256 * Number(s[1..])
  }

  function Power(n: nat): nat {
    if n == 0 then 1 else 256 * Power(n - 1)
  }

  lemma {:induction false} NumberTrip(v: nat, n: nat)
    requires v < Power(n)
    ensures Number(Bytes(v, n)) == v
  {
    if n > 0 {
      NumberTrip(v / 256, n - 1);
      assert Bytes(v, n)[1..] == Bytes(v / 256, n - 1);
    }
  }

  predicate Distinct(q: seq<nat>) {
    forall i, j | 0 <= i < j < |q| :: q[i] != q[j]
  }

  lemma EmptyOrMember<T>(q: seq<T>)
    ensures q == [] || q[0] in q
  {
    if q != [] {
      assert q[0] in q;
    }
  }

  /** A sequence without the first occurrence of `t`. */
  function Drop(q: seq<nat>, t: nat): seq<nat> {
    if q == [] then [] else if q[0] == t then q[1..] else [q[0]] + Drop(q[1..], t)
  }

  lemma {:induction false} DropMembers(q: seq<nat>, t: nat)
    requires Distinct(q)
    ensures forall x :: x in Drop(q, t) <==> x in q && x != t
    ensures Distinct(Drop(q, t))
    ensures t !in q ==> Drop(q, t) == q
    ensures t in q ==> |Drop(q, t)| == |q| - 1
  {
    if q != [] {
      DropMembers(q[1..], t);
      assert q == [q[0]] + q[1..];
      assert q[0] !in Drop(q[1..], t);
    }
  }

  /** What is left keeps its order. */
  lemma {:induction false} DropSplit(q: seq<nat>, t: nat) returns (i: nat)
    requires t in q
    ensures i < |q| && q[i] == t && Drop(q, t) == q[..i] + q[i + 1..]
  {
    if q[0] == t {
      i := 0;
    } else {
      var j := DropSplit(q[1..], t);
      i := j + 1;
      assert q[..i] == [q[0]] + q[1..][..j] && q[i + 1..] == q[1..][j + 1..];
    }
  }

  lemma FrontDistinct(q: seq<nat>, t: nat)
    requires Distinct(q) && t !in q
    ensures Distinct([t] + q)
    ensures forall x :: x in [t] + q <==> x == t || x in q
  {
    var r := [t] + q;
    forall i, j | 0 <= i < j < |r| ensures r[i] != r[j] {
      assert r[j] == q[j - 1];
    }
  }

  lemma BackDistinct(q: seq<nat>, t: nat)
    requires Distinct(q) && t !in q
    ensures Distinct(q + [t])
    ensures forall x :: x in q + [t] <==> x == t || x in q
  {
  }

  /** Distinct numbers below `n` are `n` at most, and `n` exactly if all are there. */
  lemma {:induction false} DistinctBound(q: seq<nat>, n: nat)
    requires Distinct(q) && forall x | x in q :: x < n
    ensures |q| <= n
    ensures (forall x: nat | x < n :: x in q) ==> |q| == n
    decreases n
  {
    if q != [] {
      assert q[0] in q;
    }
    if n > 0 {
      DropMembers(q, n - 1);
      DistinctBound(Drop(q, n - 1), n - 1);
    }
  }
}
