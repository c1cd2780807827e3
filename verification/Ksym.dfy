/**
 The kernel symbol table: the byte image that the host tool writes, and the lookups that walk it.
 */
module Ksym {
  import opened Bytes

  const ENOENT: int := 2

  datatype Sym = Sym(addr: u32, kind: byte, name: seq<byte>)

  /** Names that the input format can carry: 1 to 245 bytes, none of them zero. */
  predicate NameOk(n: seq<byte>) {
    1 <= |n| <= 245 && forall i :: 0 <= i < |n| ==> n[i] != 0
  }

  predicate SymsOk(syms: seq<Sym>) {
    forall i :: 0 <= i < |syms| ==> NameOk(syms[i].name)
  }

  /** Length of address, type and length fields, name and terminator. */
  function RawLen(s: Sym): nat { 6 + |s.name| + 1 }

  function Padding(s: Sym): (p: nat)
    ensures p < 4 && (RawLen(s) + p) % 4 == 0
  {
    (4 - RawLen(s) % 4) % 4
  }

  function RecordLen(s: Sym): (n: nat)
    ensures n % 4 == 0 && RawLen(s) <= n
    ensures NameOk(s.name) ==> n <= 252
  {
    RawLen(s) + Padding(s)
  }

  /** One record of the table. */
  function Record(s: Sym): (r: seq<byte>)
    requires NameOk(s.name)
    ensures |r| == RecordLen(s)
  {
    Bytes32(s.addr) + [s.kind, RecordLen(s)] + s.name + Zeros(1 + Padding(s))
  }

  /** End-of-table marker: a symentry of zeros, rounded up to four bytes. */
  const EOT: seq<byte> := Zeros(8)

  /** The table: the records in order, then the marker. */
  function Image(syms: seq<Sym>): seq<byte>
    requires SymsOk(syms)
  {
    if syms == [] then EOT else Record(syms[0]) + Image(syms[1..])
  }

  /** Offset of record `k`. */
  function Offset(syms: seq<Sym>, k: nat): (o: nat)
    requires k <= |syms|
  {
    if k == 0 then 0 else RecordLen(syms[0]) + Offset(syms[1..], k - 1)
  }

  /** Every record starts at a multiple of four. */
  lemma {:induction false} OffsetAligned(syms: seq<Sym>, k: nat)
    requires k <= |syms|
    ensures Offset(syms, k) % 4 == 0
  {
    hide RecordLen;
    if k > 0 {
      OffsetAligned(syms[1..], k - 1);
      FoursAdd(RecordLen(syms[0]), Offset(syms[1..], k - 1));
    }
  }

  lemma FoursAdd(a: nat, b: nat)
    requires a % 4 == 0 && b % 4 == 0
    ensures (a + b) % 4 == 0
  {
  }

  // ---------------------------------------------------------------- the writer

  /** The record-emitting loop of makemap over the parsed input lines, and its end marker. */
  method EmitTable(syms: seq<Sym>) returns (out: seq<byte>)
    requires SymsOk(syms)
    ensures out == Image(syms)
  {
    out := [];
    var i: nat := 0;
    assert syms[0..] == syms;
    while i < |syms|
      invariant i <= |syms|
      invariant out + Image(syms[i..]) == Image(syms)
    {
      var r := EmitRecord(syms[i]);
      assert syms[i..][1..] == syms[i + 1..];
      assert (out + r) + Image(syms[i + 1..]) == out + (r + Image(syms[i + 1..]));
      out := out + r;
      i := i + 1;
    }
    out := out + EOT;
  }

  /** Address, type and length, then the name up to its terminator, then padding, byte by byte. */
  method EmitRecord(s: Sym) returns (out: seq<byte>)
    requires NameOk(s.name)
    ensures out == Record(s)
  {
    var len := 4 + 1 + 1 + |s.name| + 1;
    var padding: nat := (4 - len % 4) % 4;
    out := Bytes32(s.addr) + [s.kind, len + padding];
    var p: nat := 0;
    ghost var head := out;
    while p < |s.name|
      invariant p <= |s.name| && out == head + s.name[..p]
    {
      out := out + [s.name[p]];
      p := p + 1;
    }
    out := out + [0];
    while padding > 0
      invariant padding <= Padding(s)
      invariant out == head + s.name + Zeros(1 + Padding(s) - padding)
    {
      out := out + [0];
      padding := padding - 1;
    }
  }

  /** A record byte by byte: big-endian address, kind, own length, name, and zeros to the next multiple of four. */
  lemma RecordLayout(s: Sym)
    requires NameOk(s.name)
    ensures var r := Record(s);
            && |r| % 4 == 0 && |s.name| + 7 <= |r| < |s.name| + 11
            && r[0] == s.addr / 0x100_0000 && r[1] == s.addr / 0x1_0000 % 256
            && r[2] == s.addr / 256 % 256 && r[3] == s.addr % 256 && r[4] == s.kind && r[5] == |r|
            && r[6..6 + |s.name|] == s.name && forall i :: 6 + |s.name| <= i < |r| ==> r[i] == 0
  {
    MostSignificantFirst(s.addr);
  }

  // ---------------------------------------------------------------- the image, record by record

  /** At offset `o` of `img` stands the record of `s`. */
  ghost predicate RecordAt(img: seq<byte>, o: nat, s: Sym)
    requires NameOk(s.name)
  {
    o + RecordLen(s) <= |img| && img[o..o + RecordLen(s)] == Record(s)
  }

  /** Fields read in place. */
  lemma RecordFields(img: seq<byte>, o: nat, s: Sym)
    requires NameOk(s.name) && RecordAt(img, o, s)
    ensures Get32(img, o) == s.addr && img[o + 4] == s.kind && img[o + 5] == RecordLen(s) > 0
    ensures forall i :: 0 <= i < |s.name| ==> img[o + 6 + i] == s.name[i]
    ensures img[o + 6 + |s.name|] == 0
  {
    var r, b := Record(s), Bytes32(s.addr);
    assert forall i :: 0 <= i < |r| ==> img[o + i] == img[o..o + RecordLen(s)][i] == r[i];
    assert img[o] == r[0] == b[0] && img[o + 1] == r[1] == b[1];
    assert img[o + 2] == r[2] == b[2] && img[o + 3] == r[3] == b[3];
    assert Get32(b, 0) == s.addr;
    assert img[o + 4] == r[4] && img[o + 5] == r[5];
    forall i | 0 <= i < |s.name| ensures img[o + 6 + i] == s.name[i] {
      assert img[o + (6 + i)] == r[6 + i];
    }
    assert img[o + (6 + |s.name|)] == r[6 + |s.name|];
  }

  /** The table from record `k` on: either that record, or the marker. */
  lemma ImageAt(syms: seq<Sym>, k: nat)
    requires SymsOk(syms) && k <= |syms|
    ensures var img, o := Image(syms), Offset(syms, k);
            && (k < |syms| ==> RecordAt(img, o, syms[k]) && Offset(syms, k + 1) == o + RecordLen(syms[k]))
            && (k == |syms| ==> o + 8 == |img| && img[o + 5] == 0)
  {
    hide *;
    if k < |syms| {
      ImageRecord(syms, k);
    } else {
      ImageMarker(syms);
    }
  }

  lemma {:induction false} ImageMarker(syms: seq<Sym>)
    requires SymsOk(syms)
    ensures Offset(syms, |syms|) + 8 == |Image(syms)| && Image(syms)[Offset(syms, |syms|) + 5] == 0
    decreases |syms|
  {
    hide Record, RecordLen;
    if syms != [] {
      ImageMarker(syms[1..]);
      assert Image(syms)[|Record(syms[0])|..] == Image(syms[1..]);
    }
  }

  lemma {:induction false} ImageRecord(syms: seq<Sym>, k: nat)
    requires SymsOk(syms) && k < |syms|
    ensures RecordAt(Image(syms), Offset(syms, k), syms[k])
    ensures Offset(syms, k + 1) == Offset(syms, k) + RecordLen(syms[k])
    decreases |syms|
  {
    hide Record, RecordLen, RecordAt;
    var r, rest := Record(syms[0]), syms[1..];
    if k == 0 {
      FirstRecord(Image(rest), syms[0]);
      assert Offset(syms, 1) == RecordLen(syms[0]) + Offset(rest, 0);
    } else {
      ImageRecord(rest, k - 1);
      ShiftedRecord(r, Image(rest), Offset(rest, k - 1), rest[k - 1]);
    }
  }

  lemma FirstRecord(t: seq<byte>, s: Sym)
    requires NameOk(s.name)
    ensures RecordAt(Record(s) + t, 0, s)
  {
    hide Record;
    assert (Record(s) + t)[0..RecordLen(s)] == Record(s);
  }

  lemma ShiftedRecord(r: seq<byte>, t: seq<byte>, o: nat, s: Sym)
    requires NameOk(s.name) && RecordAt(t, o, s)
    ensures RecordAt(r + t, |r| + o, s)
  {
    hide Record;
    var n := RecordLen(s);
    assert (r + t)[|r| + o..|r| + o + n] == t[o..o + n];
  }

  // ---------------------------------------------------------------- the reader

  /** Decode the table from offset `o`, the way for_each_sym walks it. */
  function Decode(img: seq<byte>, o: nat): seq<Sym>
    decreases |img| - o
  {
    if o + 6 > |img| || img[o + 5] == 0 then [] else
      [Sym(Get32(img, o), img[o + 4], CString(img, o + 6))] + Decode(img, o + img[o + 5])
  }

  /** The zero-terminated string at `o`. */
  function CString(img: seq<byte>, o: nat): seq<byte>
    decreases |img| - o
  {
    if o >= |img| || img[o] == 0 then [] else [img[o]] + CString(img, o + 1)
  }

  lemma {:induction false} CStringIs(img: seq<byte>, o: nat, n: seq<byte>)
    requires o + |n| < |img| && img[o + |n|] == 0
    requires forall i :: 0 <= i < |n| ==> n[i] != 0 && img[o + i] == n[i]
    ensures CString(img, o) == n
    decreases |n|
  {
    if n != [] {
      assert forall i :: 0 <= i < |n| - 1 ==> n[1..][i] != 0 && img[o + 1 + i] == img[o + (1 + i)] == n[1..][i];
      CStringIs(img, o + 1, n[1..]);
      assert img[o] == img[o + 0] == n[0];
    }
  }

  /** Walking the emitted table visits exactly the symbols, in order, with all fields intact. */
  lemma {:induction false} DecodeImage(syms: seq<Sym>, k: nat)
    requires SymsOk(syms) && k <= |syms|
    ensures Decode(Image(syms), Offset(syms, k)) == syms[k..]
    decreases |syms| - k
  {
    hide Get32;
    hide Record;
    hide Image;
    hide RecordLen;
    ImageAt(syms, k);
    if k < |syms| {
      var img, o, s := Image(syms), Offset(syms, k), syms[k];
      RecordFields(img, o, s);
      CStringIs(img, o + 6, s.name);
      assert Decode(img, o) == [s] + Decode(img, o + img[o + 5]);
      assert syms[k..] == [s] + syms[k + 1..];
      DecodeImage(syms, k + 1);
    }
  }

  /** First symbol with this name, from `k` on; |syms| if there is none. */
  function FirstNamed(syms: seq<Sym>, name: seq<byte>, k: nat): (i: nat)
    requires k <= |syms|
    ensures k <= i <= |syms|
    ensures i < |syms| ==> syms[i].name == name
    ensures forall j :: k <= j < i ==> syms[j].name != name
    decreases |syms| - k
  {
    if k == |syms| || syms[k].name == name then k else FirstNamed(syms, name, k + 1)
  }

  /** strcmp against the zero-terminated name of the record at `o`. */
  method SameName(img: seq<byte>, o: nat, name: seq<byte>, ghost s: Sym) returns (same: bool)
    requires NameOk(s.name) && RecordAt(img, o, s) && forall i :: 0 <= i < |name| ==> name[i] != 0
    ensures same <==> s.name == name
  {
    hide Record;
    hide Get32;
    RecordFields(img, o, s);
    var i: nat := 0;
    while i < |name| && img[o + 6 + i] == name[i]
      invariant i <= |name| && i <= |s.name| && name[..i] == s.name[..i]
      invariant o + 6 + |s.name| < |img|
    {
      assert i < |s.name|;
      i := i + 1;
    }
    if i < |s.name| { assert img[o + 6 + i] == s.name[i]; }
    same := i == |name| && img[o + 6 + i] == 0;
  }

  lemma OffsetZero(syms: seq<Sym>)
    ensures Offset(syms, 0) == 0
  {
  }

  /** What the walk finds at its `k`-th stop. */
  lemma Stop(syms: seq<Sym>, k: nat)
    requires SymsOk(syms) && k <= |syms|
    ensures var img, o := Image(syms), Offset(syms, k);
            && o + 5 < |img|
            && (img[o + 5] != 0 <==> k < |syms|)
            && (k < |syms| ==> RecordAt(img, o, syms[k]) && Get32(img, o) == syms[k].addr
                               && Offset(syms, k + 1) == img[o + 5] + o)
  {
    hide Record;
    hide Get32;
    hide Image;
    hide RecordLen;
    ImageAt(syms, k);
    if k < |syms| { RecordFields(Image(syms), Offset(syms, k), syms[k]); }
  }

  /** ksym_find_by_name: the first entry with the name, by offset into the table. */
  method FindByName(img: seq<byte>, name: seq<byte>, ghost syms: seq<Sym>) returns (ret: int, ent: nat)
    requires SymsOk(syms) && img == Image(syms) && forall i :: 0 <= i < |name| ==> name[i] != 0
    ensures var k := FirstNamed(syms, name, 0);
            if k < |syms| then ret == 0 && ent == Offset(syms, k) else ret == -ENOENT
  {
    hide Record;
    hide Get32;
    hide Image;
    hide RecordLen;
    hide RecordAt;
    hide Offset;
    assert Offset(syms, 0) == 0 by { OffsetZero(syms); }
    var sym: nat := 0;
    ghost var k: nat := 0;
    ent := 0;
    Stop(syms, k);
    while img[sym + 5] != 0
      invariant k <= |syms| && sym == Offset(syms, k) && sym + 5 < |img|
      invariant k < |syms| <==> img[sym + 5] != 0
      invariant FirstNamed(syms, name, 0) == FirstNamed(syms, name, k)
      decreases |syms| - k
    {
      Stop(syms, k);
      var same := SameName(img, sym, name, syms[k]);
      if same {
        return 0, sym;
      }
      sym := img[sym + 5] + sym;
      k := k + 1;
      Stop(syms, k);
    }
    ret := -ENOENT;
  }

  /** `k` is the last symbol with the greatest address not above the query, among the first `n`. */
  ghost predicate NearestPrev(syms: seq<Sym>, addr: u32, n: nat, k: nat) {
    && k < n <= |syms| && syms[k].addr <= addr
    && (forall j :: 0 <= j < n && syms[j].addr <= addr ==> syms[j].addr <= syms[k].addr)
    && (forall j :: k < j < n && syms[j].addr <= addr ==> syms[j].addr < syms[k].addr)
  }

  lemma NearestStep(syms: seq<Sym>, addr: u32, k: nat, found: nat, some: bool)
    requires k < |syms|
    requires if some then NearestPrev(syms, addr, k, found) else forall j :: 0 <= j < k ==> syms[j].addr > addr
    ensures if syms[k].addr <= addr && (!some || syms[k].addr >= syms[found].addr)
            then NearestPrev(syms, addr, k + 1, k)
            else if some then NearestPrev(syms, addr, k + 1, found)
            else forall j :: 0 <= j < k + 1 ==> syms[j].addr > addr
  {
  }

  /** ksym_find_nearest_prev: the last of the nearest entries at or below the address; fails iff there is none. */
  method FindNearestPrev(img: seq<byte>, addr: u32, ghost syms: seq<Sym>) returns (ret: int, ent: nat, ghost found: nat)
    requires SymsOk(syms) && img == Image(syms)
    ensures ret == 0 || ret == -ENOENT
    ensures ret == 0 ==> found < |syms| && syms[found].addr <= addr && ent == Offset(syms, found)
    ensures ret == 0 ==> forall j :: 0 <= j < |syms| && syms[j].addr <= addr ==>
                           syms[j].addr < syms[found].addr || (syms[j].addr == syms[found].addr && j <= found)
    ensures ret != 0 ==> forall j :: 0 <= j < |syms| ==> syms[j].addr > addr
  {
    hide Record;
    hide Get32;
    hide Image;
    hide RecordLen;
    hide RecordAt;
    hide Offset;
    hide NearestPrev;
    assert Offset(syms, 0) == 0 by { OffsetZero(syms); }
    var sym: nat := 0;
    var symFound := false;
    var dist: u32 := 0xFFFF_FFFF;
    ghost var k: nat := 0;
    ent, found := 0, 0;
    Stop(syms, k);
    while img[sym + 5] != 0
      invariant k <= |syms| && sym == Offset(syms, k) && sym + 5 < |img|
      invariant k < |syms| <==> img[sym + 5] != 0
      invariant !symFound ==> dist == 0xFFFF_FFFF && forall j :: 0 <= j < k ==> syms[j].addr > addr
      invariant symFound ==>
                  && found < |syms| && syms[found].addr <= addr && NearestPrev(syms, addr, k, found)
                  && ent == Offset(syms, found) && dist == addr - syms[found].addr
      decreases |syms| - k
    {
      Stop(syms, k);
      var a := Get32(img, sym);
      NearestStep(syms, addr, k, found, symFound);
      if addr >= a && dist >= addr - a {
        dist := addr - a;
        symFound, ent, found := true, sym, k;
      }
      sym := img[sym + 5] + sym;
      k := k + 1;
      Stop(syms, k);
    }
    if symFound { NearestMeans(syms, addr, found); }
    ret := if symFound then 0 else -ENOENT;
  }

  lemma NearestMeans(syms: seq<Sym>, addr: u32, k: nat)
    requires NearestPrev(syms, addr, |syms|, k)
    ensures forall j :: 0 <= j < |syms| && syms[j].addr <= addr ==>
              syms[j].addr < syms[k].addr || (syms[j].addr == syms[k].addr && j <= k)
  {
  }
}
