/** Message registers: a tag with two counts, then the untyped items, then the typed ones, and the way of a
    message through the registers of two threads. */
module Messages {

  const REGS: nat := 64

  /** The low bits of register zero: six bits of untyped count, six of typed count, then the label. */
  function Untyped(raw: nat): nat { raw % 64 }
  function Typed(raw: nat): nat { raw / 64 % 64 }
  function Label(raw: nat): nat { raw / 4096 }

  function Raw(u: nat, t: nat, mark: nat): nat
    requires u < 64 && t < 64
  {
    u + 64 * t + 4096 * mark
  }

  lemma RawFields(u: nat, t: nat, mark: nat)
    requires u < 64 && t < 64
    ensures Untyped(Raw(u, t, mark)) == u && Typed(Raw(u, t, mark)) == t && Label(Raw(u, t, mark)) == mark
  {
  }

  /** What a run of registers means. */
  datatype Content = Content(mark: nat, untyped: seq<nat>, typed: seq<nat>)

  predicate Fits(regs: seq<nat>) {
    |regs| == REGS && Untyped(regs[0]) + Typed(regs[0]) < REGS
  }

  function Read(regs: seq<nat>): Content
    requires Fits(regs)
  {
    var u, t := Untyped(regs[0]), Typed(regs[0]);
    Content(Label(regs[0]), regs[1..1 + u], regs[1 + u..1 + u + t])
  }

  /** Two runs with the same tag that agree on the items mean the same. */
  lemma ReadAgree(a: seq<nat>, b: seq<nat>)
    requires Fits(a) && |b| == REGS && b[0] == a[0]
    requires forall i | 1 <= i <= Untyped(a[0]) + Typed(a[0]) :: b[i] == a[i]
    ensures Fits(b) && Read(b) == Read(a)
  {
    var u, t := Untyped(a[0]), Typed(a[0]);
    assert b[1..1 + u] == a[1..1 + u];
    assert b[1 + u..1 + u + t] == a[1 + u..1 + u + t];
  }

  class Message {
    const regs: array<nat>

    constructor ()
      ensures fresh(regs) && Valid() && Value() == Content(0, [], [])
    {
      regs := new nat[REGS](_ => 0);
    }

    ghost predicate Valid()
      reads this, regs
    {
      regs.Length == REGS && Fits(regs[..])
    }

    ghost function Value(): Content
      reads this, regs
      requires Valid()
    {
      Read(regs[..])
    }

    /** The typed items move up by one, the last one first. */
    method ShiftTyped(u: nat, t: nat)
      requires regs.Length == REGS && u + t < REGS - 1
      modifies regs
      ensures forall k | 0 <= k <= u :: regs[k] == old(regs[k])
      ensures forall k | 1 + u < k <= 1 + u + t :: regs[k] == old(regs[k - 1])
    {
      var i := 1 + u + t;
      while i > 1 + u
        invariant 1 + u <= i <= 1 + u + t
        invariant forall k | 0 <= k < i :: regs[k] == old(regs[k])
        invariant forall k | i < k <= 1 + u + t :: regs[k] == old(regs[k - 1])
      {
        regs[i] := regs[i - 1];
        i := i - 1;
      }
    }

    /** append of an untyped item, before the typed ones. */
    method AppendUntyped(x: nat)
      requires Valid() && Untyped(regs[0]) + Typed(regs[0]) < REGS - 1
      modifies regs
      ensures Valid() && Value() == old(Value()).(untyped := old(Value()).untyped + [x])
    {
      var u, t := Untyped(regs[0]), Typed(regs[0]);
      ghost var was := regs[..];
      if t != 0 {
        ShiftTyped(u, t);
      }
      RawFields(u + 1, t, Label(regs[0]));
      regs[0] := Raw(u + 1, t, Label(regs[0]));
      regs[1 + u] := x;
      assert regs[1..2 + u] == was[1..1 + u] + [x];
      assert regs[2 + u..2 + u + t] == was[1 + u..1 + u + t];
      hide Untyped, Typed, Label, Raw;
    }

    /** append of a typed item of one register. */
    method AppendSingle(x: nat)
      requires Valid() && Untyped(regs[0]) + Typed(regs[0]) < REGS - 1
      modifies regs
      ensures Valid() && Value() == old(Value()).(typed := old(Value()).typed + [x])
    {
      var u, t := Untyped(regs[0]), Typed(regs[0]);
      ghost var was := regs[..];
      RawFields(u, t + 1, Label(regs[0]));
      regs[1 + u + t] := x;
      regs[0] := Raw(u, t + 1, Label(regs[0]));
      assert regs[1..1 + u] == was[1..1 + u];
      assert regs[1 + u..2 + u + t] == was[1 + u..1 + u + t] + [x];
    }

    /** append of a typed item of two registers. */
    method AppendDouble(x: nat, y: nat)
      requires Valid() && Untyped(regs[0]) + Typed(regs[0]) < REGS - 2
      modifies regs
      ensures Valid() && Value() == old(Value()).(typed := old(Value()).typed + [x, y])
    {
      ghost var c := Value();
      assert |c.untyped| == Untyped(regs[0]) && |c.typed| == Typed(regs[0]);
      AppendSingle(x);
      assert |Value().untyped| == Untyped(regs[0]) && |Value().typed| == Typed(regs[0]);
      AppendSingle(y);
      assert c.typed + [x] + [y] == c.typed + [x, y];
    }
  }

  /** An append: to the untyped items, or of one or two registers to the typed ones. */
  datatype Item = Plain(x: nat) | Single(x: nat) | Double(x: nat, y: nat)

  function Size(items: seq<Item>): nat {
    if items == [] then 0 else Size(items[..|items| - 1]) + if items[|items| - 1].Double? then 2 else 1
  }

  /** All untyped items in order, and all typed ones in order, whatever the mix. */
  function Sorted(items: seq<Item>): Content {
    if items == [] then Content(0, [], [])
    else
      var c := Sorted(items[..|items| - 1]);
      match items[|items| - 1]
      case Plain(x) => c.(untyped := c.untyped + [x])
      case Single(x) => c.(typed := c.typed + [x])
      case Double(x, y) => c.(typed := c.typed + [x, y])
  }

  lemma {:induction false} SortedSize(items: seq<Item>)
    ensures |Sorted(items).untyped| + |Sorted(items).typed| == Size(items)
  {
    if items != [] {
      SortedSize(items[..|items| - 1]);
    }
  }

  lemma {:induction false} SizeMonotone(items: seq<Item>, n: nat)
    requires n <= |items|
    ensures Size(items[..n]) <= Size(items)
    decreases |items|
  {
    if n < |items| {
      SizeMonotone(items[..|items| - 1], n);
      assert items[..|items| - 1][..n] == items[..n];
    } else {
      assert items[..n] == items;
    }
  }

  /** A message built by any mix of appends that fits holds the untyped items in order, then the typed ones. */
  method Build(items: seq<Item>) returns (m: Message)
    requires Size(items) < REGS
    ensures m.Valid() && fresh(m.regs) && m.Value() == Sorted(items)
  {
    m := new Message();
    for i := 0 to |items|
      invariant m.Valid() && fresh(m.regs) && m.Value() == Sorted(items[..i])
    {
      SizeMonotone(items, i + 1);
      assert items[..i + 1][..i] == items[..i];
      SortedSize(items[..i]);
      assert |m.Value().untyped| == Untyped(m.regs[0]) && |m.Value().typed| == Typed(m.regs[0]);
      match items[i] {
        case Plain(x) => m.AppendUntyped(x);
        case Single(x) => m.AppendSingle(x);
        case Double(x, y) => m.AppendDouble(x, y);
      }
    }
    assert items[..|items|] == items;
  }

  // ----- through the threads' registers

  /** load_message: the tag and the items, over whatever the registers held. */
  method Load(m: Message, mr: array<nat>)
    requires m.Valid() && mr.Length == REGS && mr != m.regs
    modifies mr
    ensures Fits(mr[..]) && Read(mr[..]) == m.Value()
  {
    mr[0] := m.regs[0];
    var n := Untyped(mr[0]) + Typed(mr[0]);
    for i := 1 to n + 1
      invariant mr[0] == m.regs[0]
      invariant forall k | 1 <= k < i :: mr[k] == m.regs[k]
    {
      mr[i] := m.regs[i];
    }
    ReadAgree(m.regs[..], mr[..]);
  }

  /** The register copy of send. */
  method Copy(from: array<nat>, to: array<nat>)
    requires from.Length == REGS && to.Length == REGS && from != to
    modifies to
    ensures to[..] == from[..]
  {
    for i := 0 to REGS
      invariant forall k | 0 <= k < i :: to[k] == from[k]
    {
      to[i] := from[i];
    }
  }

  /** store_message. */
  method Store(mr: array<nat>, m: Message)
    requires mr.Length == REGS && Fits(mr[..]) && m.regs.Length == REGS && mr != m.regs
    modifies m.regs
    ensures m.Valid() && m.Value() == Read(mr[..])
  {
    m.regs[0] := mr[0];
    var n := Untyped(mr[0]) + Typed(mr[0]);
    for i := 1 to n + 1
      invariant m.regs[0] == mr[0]
      invariant forall k | 1 <= k < i :: m.regs[k] == mr[k]
    {
      m.regs[i] := mr[i];
    }
    ReadAgree(mr[..], m.regs[..]);
  }

  /** Loaded, copied and stored, a message arrives with its tag and its items. */
  method Deliver(sent: Message, sender: array<nat>, receiver: array<nat>, got: Message)
    requires sent.Valid() && got.regs.Length == REGS && sender.Length == REGS && receiver.Length == REGS
    requires sender != receiver && sender != sent.regs && sender != got.regs && receiver != sent.regs && receiver != got.regs
    modifies sender, receiver, got.regs
    ensures got.Valid() && got.Value() == old(sent.Value())
  {
    Load(sent, sender);
    Copy(sender, receiver);
    Store(receiver, got);
  }
}
