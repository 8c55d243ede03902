/** The ramdisk image that the tool writes and the kernel reads: one leading byte, a header, one record per
    item, and the files, each padded to eight bytes. Offsets count from the header. */
module Ramdisk {
  import opened Prelude

  const HEADER: nat := 56
  const RECORD: nat := 40
  const NAME: nat := 16
  const AP_BOOT: nat := 1
  const WORD: nat := 0x1_0000_0000_0000_0000

  datatype File = File(name: seq<Octet>, bytes: seq<Octet>)

  // ----- encodings

  function Zeros(n: nat): (r: seq<Octet>)
    ensures |r| == n
  {
    seq(n, _ => 0)
  }

  lemma Word(v: nat)
    requires v < WORD
    ensures Number(Bytes(v, 8)) == v
  {
    assert Power(4) == 0x1_0000_0000;
    assert Power(8) == WORD;
    NumberTrip(v, 8);
  }

  /** The name up to its first zero. */
  function CString(s: seq<Octet>): seq<Octet> {
    if s == [] || s[0] == 0 then [] else [s[0]] + CString(s[1..])
  }

  lemma {:induction false} NameTrip(name: seq<Octet>, rest: seq<Octet>)
    requires (forall i | 0 <= i < |name| :: name[i] != 0) && rest != [] && rest[0] == 0
    ensures CString(name + rest) == name
  {
    if name == [] {
      assert name + rest == rest;
    } else {
      NameTrip(name[1..], rest);
      assert (name + rest)[1..] == name[1..] + rest;
    }
  }

  // ----- the image

  function Padding(n: nat): nat {
    (8 - n % 8) % 8
  }

  function Padded(b: seq<Octet>): seq<Octet> {
    b + Zeros(Padding(|b|))
  }

  lemma PaddedLength(b: seq<Octet>)
    ensures |Padded(b)| % 8 == 0 && |b| <= |Padded(b)| < |b| + 8
  {
  }

  /** Where file `i` goes. */
  function Offset(files: seq<File>, i: nat): nat
    requires i <= |files|
  {
    if i == 0 then HEADER + RECORD * |files| else Offset(files, i - 1) + |Padded(files[i - 1].bytes)|
  }

  /** The letters of ap_boot from place `i` on. */
  predicate ApBootAt(name: seq<Octet>, i: nat) {
    i + 7 <= |name| && name[i..i + 7] == [97, 112, 95, 98, 111, 111, 116]
  }

  predicate HasApBoot(name: seq<Octet>) {
    exists i | 0 <= i < |name| :: ApBootAt(name, i)
  }

  function Flags(f: File): nat {
    if HasApBoot(f.name) then AP_BOOT else 0
  }

  function Record(f: File, offset: nat): (r: seq<Octet>)
    requires |f.name| < NAME
    ensures |r| == RECORD
  {
    f.name + Zeros(NAME - |f.name|) + Bytes(Flags(f), 8) + Bytes(offset, 8) + Bytes(|f.bytes|, 8)
  }

  predicate Named(files: seq<File>) {
    forall i | 0 <= i < |files| :: |files[i].name| < NAME && forall k | 0 <= k < |files[i].name| :: files[i].name[k] != 0
  }

  function Records(files: seq<File>, n: nat): (r: seq<Octet>)
    requires Named(files) && n <= |files|
    ensures |r| == RECORD * n
  {
    if n == 0 then [] else Records(files, n - 1) + Record(files[n - 1], Offset(files, n - 1))
  }

  function Data(files: seq<File>, n: nat): (r: seq<Octet>)
    requires n <= |files|
    ensures HEADER + RECORD * |files| + |r| == Offset(files, n)
  {
    if n == 0 then [] else Data(files, n - 1) + Padded(files[n - 1].bytes)
  }

  /** The image from the header on; `header` is the fifty-six bytes of it. */
  function Image(header: seq<Octet>, files: seq<File>): seq<Octet>
    requires |header| == HEADER && Named(files)
  {
    header + Records(files, |files|) + Data(files, |files|)
  }

  // ----- what the kernel reads

  /** The record of item `i`, at its place after the header. */
  function ItemAt(image: seq<Octet>, i: nat): seq<Octet>
    requires HEADER + RECORD * (i + 1) <= |image|
  {
    image[HEADER + RECORD * i..HEADER + RECORD * i + RECORD]
  }

  function ItemName(r: seq<Octet>): seq<Octet> requires |r| == RECORD { CString(r[..16]) }
  function ItemFlags(r: seq<Octet>): nat requires |r| == RECORD { Number(r[16..24]) }
  function ItemOffset(r: seq<Octet>): nat requires |r| == RECORD { Number(r[24..32]) }
  function ItemSize(r: seq<Octet>): nat requires |r| == RECORD { Number(r[32..40]) }

  lemma {:induction false} RecordsAt(files: seq<File>, n: nat, i: nat)
    requires Named(files) && i < n <= |files|
    ensures Records(files, n)[RECORD * i..RECORD * i + RECORD] == Record(files[i], Offset(files, i))
  {
    if i < n - 1 {
      RecordsAt(files, n - 1, i);
    }
  }

  lemma {:induction false} DataAt(files: seq<File>, n: nat, i: nat)
    requires i < n <= |files|
    ensures HEADER + RECORD * |files| <= Offset(files, i) && Offset(files, i) + |files[i].bytes| <= Offset(files, n)
    ensures var at := Offset(files, i) - HEADER - RECORD * |files|;
      Data(files, n)[at..at + |files[i].bytes|] == files[i].bytes
  {
    OffsetBase(files, i);
    PaddedLength(files[i].bytes);
    if i < n - 1 {
      DataAt(files, n - 1, i);
      PaddedLength(files[n - 1].bytes);
    }
  }

  lemma {:induction false} OffsetBase(files: seq<File>, i: nat)
    requires i <= |files|
    ensures HEADER + RECORD * |files| <= Offset(files, i) && Offset(files, i) % 8 == 0
  {
    if i == 0 {
      Eights(7, 5 * |files|);
    } else {
      OffsetBase(files, i - 1);
      PaddedLength(files[i - 1].bytes);
      var a, b := Offset(files, i - 1), |Padded(files[i - 1].bytes)|;
      Eights(a / 8, b / 8);
      hide Padded;
    }
  }

  lemma Eights(a: nat, b: nat)
    ensures (8 * a + 8 * b) % 8 == 0
  {
    assert 8 * a + 8 * b == 8 * (a + b);
  }

  /** Slices of three parts put together. */
  lemma Parts(a: seq<Octet>, b: seq<Octet>, c: seq<Octet>, x: nat, y: nat)
    requires x <= y
    ensures y <= |b| ==> (a + b + c)[|a| + x..|a| + y] == b[x..y]
    ensures y <= |c| ==> (a + b + c)[|a| + |b| + x..|a| + |b| + y] == c[x..y]
  {
  }

  lemma RecordFields(f: File, offset: nat)
    requires |f.name| < NAME && (forall k | 0 <= k < |f.name| :: f.name[k] != 0) && offset < WORD && |f.bytes| < WORD
    ensures var r := Record(f, offset);
      ItemName(r) == f.name && ItemFlags(r) == Flags(f) && ItemOffset(r) == offset && ItemSize(r) == |f.bytes|
  {
    var r := Record(f, offset);
    assert r[..16] == f.name + Zeros(NAME - |f.name|);
    NameTrip(f.name, Zeros(NAME - |f.name|));
    assert r[16..24] == Bytes(Flags(f), 8);
    assert r[24..32] == Bytes(offset, 8);
    assert r[32..40] == Bytes(|f.bytes|, 8);
    Word(Flags(f));
    Word(offset);
    Word(|f.bytes|);
  }

  lemma ItemTrip(header: seq<Octet>, files: seq<File>, i: nat)
    requires |header| == HEADER && Named(files) && i < |files|
    ensures HEADER + RECORD * (i + 1) <= |Image(header, files)|
    ensures ItemAt(Image(header, files), i) == Record(files[i], Offset(files, i))
  {
    var n := |files|;
    RecordsAt(files, n, i);
    Parts(header, Records(files, n), Data(files, n), RECORD * i, RECORD * i + RECORD);
    hide Record, Offset;
  }

  lemma BytesTrip(header: seq<Octet>, files: seq<File>, i: nat)
    requires |header| == HEADER && Named(files) && i < |files|
    ensures var at, len := Offset(files, i), |files[i].bytes|;
      && at + len <= Offset(files, |files|) == |Image(header, files)|
      && Image(header, files)[at..at + len] == files[i].bytes
  {
    var n := |files|;
    hide Image, Records, Data, Record, Offset, Padded;
    DataAt(files, n, i);
    ImageParts(header, files);
    var at, len := Offset(files, i) - HEADER - RECORD * n, |files[i].bytes|;
    Parts(header, Records(files, n), Data(files, n), at, at + len);
  }

  lemma ImageParts(header: seq<Octet>, files: seq<File>)
    requires |header| == HEADER && Named(files)
    ensures var n := |files|;
      && Image(header, files) == header + Records(files, n) + Data(files, n)
      && |Records(files, n)| == RECORD * n && HEADER + RECORD * n + |Data(files, n)| == Offset(files, n)
  {
  }

  /** The kernel finds every file as it was written: its name, its flags, and at header plus offset its bytes.
      Offsets are multiples of eight, and the files do not overlap each other or the records. */
  lemma RamdiskTrip(header: seq<Octet>, files: seq<File>, i: nat)
    requires |header| == HEADER && Named(files) && i < |files| && Offset(files, |files|) < WORD
    ensures var image := Image(header, files);
      && HEADER + RECORD * (i + 1) <= |image|
      && var r := ItemAt(image, i);
      && ItemName(r) == files[i].name
      && (ItemFlags(r) == 1 <==> HasApBoot(files[i].name)) && (ItemFlags(r) == 0 <==> !HasApBoot(files[i].name))
      && ItemOffset(r) + ItemSize(r) <= |image|
      && image[ItemOffset(r)..ItemOffset(r) + ItemSize(r)] == files[i].bytes
      && ItemOffset(r) % 8 == 0 && HEADER + RECORD * |files| <= ItemOffset(r)
      && forall j | i < j < |files| :: ItemOffset(r) + ItemSize(r) <= Offset(files, j)
  {
    ItemTrip(header, files, i);
    BytesTrip(header, files, i);
    OffsetBase(files, i);
    assert Offset(files, i) < WORD && |files[i].bytes| < WORD;
    RecordFields(files[i], Offset(files, i));
    forall j | i < j < |files| ensures Offset(files, i) + |files[i].bytes| <= Offset(files, j) {
      DataAt(files, j, i);
    }
    hide Image, ItemAt, Record, Offset, ItemName, ItemFlags, ItemOffset, ItemSize, Flags;
  }

  // ----- the tool

  /** create_ramdisk: the records, with the offsets summed up on the way. */
  method CreateRecords(files: seq<File>) returns (records: seq<Octet>, total: nat)
    requires Named(files)
    ensures records == Records(files, |files|) && total == Offset(files, |files|)
  {
    records, total := [], HEADER + RECORD * |files|;
    for i := 0 to |files|
      invariant records == Records(files, i) && total == Offset(files, i)
    {
      records := records + Record(files[i], total);
      total := total + |Padded(files[i].bytes)|;
    }
  }

  /** copy_items: the files one after the other, each with its padding. */
  method CopyItems(files: seq<File>) returns (data: seq<Octet>)
    ensures data == Data(files, |files|)
  {
    data := [];
    for i := 0 to |files|
      invariant data == Data(files, i)
    {
      data := data + files[i].bytes + Zeros(Padding(|files[i].bytes|));
    }
  }

  /** The target file: the byte that clearing it leaves, then the image. The kernel skips that byte. */
  method WriteTarget(header: seq<Octet>, files: seq<File>) returns (target: seq<Octet>)
    requires |header| == HEADER && Named(files)
    ensures target != [] && target[1..] == Image(header, files)
  {
    var records, _ := CreateRecords(files);
    var data := CopyItems(files);
    target := [48] + header + records + data;
    Leading(48, header, records, data);
    hide Records, Data, Named;
  }

  lemma Leading(x: Octet, a: seq<Octet>, b: seq<Octet>, c: seq<Octet>)
    ensures ([x] + a + b + c)[1..] == a + b + c
  {
  }
}
