/**
 The slab allocator proper: chains of slabs whose headers and allocation bitmaps are updated in place.
 */
module Slab {
  import opened M = SlabModel
  import opened Options

  // ---------------------------------------------------------------- bits of a byte

  /** 1 << k */
  function Mask(k: nat): bv8
    requires k < 8
  {
    if k == 0 then 1 else if k == 1 then 2 else if k == 2 then 4 else if k == 3 then 8
    else if k == 4 then 16 else if k == 5 then 32 else if k == 6 then 64 else 128
  }

  predicate BitAt(b: bv8, k: nat)
    requires k < 8
  {
    b & Mask(k) != 0
  }

  /** (1 << k) - 1 */
  function LowBits(k: nat): (b: bv8)
    requires k <= 8
    ensures forall j :: 0 <= j < 8 ==> (BitAt(b, j) <==> j < k)
  {
    if k == 0 then 0 else if k == 1 then 1 else if k == 2 then 3 else if k == 3 then 7 else if k == 4 then 15
    else if k == 5 then 31 else if k == 6 then 63 else if k == 7 then 127 else 255
  }

  lemma FullByte(b: bv8)
    ensures b == 0xff <==> forall k :: 0 <= k < 8 ==> BitAt(b, k)
  {
    if BitAt(b, 0) && BitAt(b, 1) && BitAt(b, 2) && BitAt(b, 3) {
      assert BitAt(b, 4) && BitAt(b, 5) && BitAt(b, 6) && BitAt(b, 7) ==> b == 0xff;
    }
  }

  lemma MasksMeet(k: nat, j: nat)
    requires k < 8 && j < 8
    ensures Mask(k) & Mask(j) == if k == j then Mask(k) else 0
    ensures Mask(k) != 0
  {
    if k == 0 {} else if k == 1 {} else if k == 2 {} else if k == 3 {}
    else if k == 4 {} else if k == 5 {} else if k == 6 {} else {}
  }

  lemma OrBits(b: bv8, m: bv8, n: bv8)
    ensures (b | m) & n != 0 <==> b & n != 0 || m & n != 0
  {
  }

  lemma AndNotBits(b: bv8, m: bv8, n: bv8)
    ensures m & n == 0 ==> (b & !m) & n == b & n
    ensures (b & !m) & m == 0
  {
  }

  lemma SetBit(b: bv8, k: nat, j: nat)
    requires k < 8 && j < 8
    ensures BitAt(b | Mask(k), j) <==> j == k || BitAt(b, j)
  {
    hide Mask;
    MasksMeet(k, j);
    OrBits(b, Mask(k), Mask(j));
  }

  lemma ClearBit(b: bv8, k: nat, j: nat)
    requires k < 8 && j < 8
    ensures BitAt(b & !Mask(k), j) <==> j != k && BitAt(b, j)
  {
    hide Mask;
    MasksMeet(k, j);
    AndNotBits(b, Mask(k), Mask(j));
  }

  /** Bit `o` of a bitmap. */
  predicate Bit(body: seq<bv8>, o: nat)
    requires o / 8 < |body|
  {
    BitAt(body[o / 8], o % 8)
  }

  // ---------------------------------------------------------------- slabs in memory

  /** One SLAB_SIZE piece of the region: the header fields, and the bytes behind them, bitmap first. */
  class Frame {
    var next: Frame?
    var free: nat
    var radix: nat
    const addr: nat
    const body: array<bv8>

    constructor (addr: nat, bytes: seq<bv8>)
      requires |bytes| == SLAB_SIZE - HEADER
      ensures this.addr == addr && fresh(body) && body[..] == bytes
    {
      next, free, radix := null, 0, 0;
      this.addr := addr;
      body := new bv8[SLAB_SIZE - HEADER](k requires 0 <= k < |bytes| => bytes[k]);
    }
  }

  /** The bitmap in `body` says what `bits` says. */
  ghost predicate BitmapIs(body: seq<bv8>, bits: seq<bool>) {
    && |bits| <= 8 * |body|
    && forall o :: 0 <= o < |bits| ==> (Bit(body, o) <==> bits[o])
  }

  ghost predicate Encodes(f: Frame, s: Slab)
    reads f`free, f`radix, f.body
  {
    && f.radix == s.radix
    && f.free == ClearCount(s.bits)
    && BitmapIs(f.body[..], s.bits)
  }

  /** Index of the next slab of the radix, from `from` on; |ss| if there is none. */
  function NextSame(ss: seq<Slab>, r: nat, from: nat): (i: nat)
    requires from <= |ss|
    ensures from <= i <= |ss|
    ensures i < |ss| ==> ss[i].radix == r
    ensures forall k :: from <= k < i ==> ss[k].radix != r
    decreases |ss| - from
  {
    if from == |ss| || ss[from].radix == r then from else NextSame(ss, r, from + 1)
  }

  lemma {:induction false} NextSameIs(ss: seq<Slab>, r: nat, from: nat, i: nat)
    requires from <= i <= |ss| && (i < |ss| ==> ss[i].radix == r)
    requires forall k :: from <= k < i ==> ss[k].radix != r
    ensures NextSame(ss, r, from) == i
    decreases i - from
  {
    if from < i { NextSameIs(ss, r, from + 1, i); }
  }

  /** A slab's bits do not matter to the chains. */
  lemma NextSameUpdate(ss: seq<Slab>, j: nat, s: Slab, r: nat, from: nat)
    requires j < |ss| && s.radix == ss[j].radix && from <= |ss|
    ensures NextSame(ss[j := s], r, from) == NextSame(ss, r, from)
  {
    NextSameIs(ss[j := s], r, from, NextSame(ss, r, from));
  }

  /** Appending a slab extends exactly the chains of its radix. */
  lemma NextSameAppend(ss: seq<Slab>, s: Slab, r: nat, from: nat)
    requires from <= |ss|
    ensures NextSame(ss + [s], r, from) ==
            if NextSame(ss, r, from) < |ss| then NextSame(ss, r, from)
            else if s.radix == r then |ss| else |ss| + 1
  {
    var i := NextSame(ss, r, from);
    NextSameIs(ss + [s], r, from, if i < |ss| then i else if s.radix == r then |ss| else |ss| + 1);
  }

  /** Picking a slab with room can skip to the next slab of the radix. */
  lemma {:induction false} PickSkips(ss: seq<Slab>, r: nat, from: nat)
    requires from <= |ss|
    ensures Pick(ss, r, from) == Pick(ss, r, NextSame(ss, r, from))
    decreases |ss| - from
  {
    if from < |ss| && ss[from].radix != r { PickSkips(ss, r, from + 1); }
  }

  /** A full slab is passed over. */
  lemma PickPasses(ss: seq<Slab>, r: nat, i: nat)
    requires i < |ss| && ClearCount(ss[i].bits) == 0
    ensures Pick(ss, r, i) == Pick(ss, r, NextSame(ss, r, i + 1))
    ensures NextSame(ss, r, i + 1) == |ss| ==> Pick(ss, r, i) == |ss|
  {
    PickSkips(ss, r, i + 1);
  }

  /** Without a free cell and without room for a slab, allocation fails and changes nothing. */
  lemma AllocFails(ss: seq<Slab>, cap: nat, r: nat)
    requires Radix(r) && Pick(ss, r, 0) == |ss| == cap
    ensures AfterAlloc(ss, cap, r) == ss && AllocResult(ss, cap, r) == None
  {
  }

  /** Taking a cell from the slab found is what an allocation does. */
  lemma AllocIs(ss: seq<Slab>, cap: nat, r: nat, mid: seq<Slab>)
    requires Radix(r) && Pick(ss, r, 0) != cap && |ss| <= cap
    requires mid == if Pick(ss, r, 0) < |ss| then ss else ss + [Fresh(r)]
    ensures var p := Pick(ss, r, 0);
            && p < |mid| && mid[p].radix == r
            && AfterAlloc(ss, cap, r) == mid[p := TakeFirst(mid[p])] && TakeFirst(mid[p]).radix == r
            && AllocResult(ss, cap, r) == Some(Cell(p, FirstClear(mid[p].bits)))
  {
    var p := Pick(ss, r, 0);
    assert p == |ss| ==> (ss + [Fresh(r)])[p := TakeFirst(Fresh(r))] == ss + [TakeFirst(Fresh(r))];
  }

  // ---------------------------------------------------------------- the first bitmap of a slab

  /** The bitmap byte that holds the bit of the last reserved cell. */
  function LastReserved(r: nat): (p: nat)
    requires Radix(r)
    ensures 8 * p < Reserved(r) <= 8 * p + 8 && p + 1 < BitmapLen(r) <= 64
  {
    Constants(r);
    (Reserved(r) - 1) / 8
  }

  /** What slab_create makes of the bytes behind a header: it writes no byte between the reserved bits and the last. */
  function Stamped(before: seq<bv8>, r: nat): (after: seq<bv8>)
    requires Radix(r) && |before| == SLAB_SIZE - HEADER
    ensures |after| == |before|
  {
    seq(|before|, k requires 0 <= k < |before| =>
      if k < LastReserved(r) then 0xff
      else if k == LastReserved(r) then LowBits(Reserved(r) - 8 * k)
      else if k == BitmapLen(r) - 1 then 0
      else before[k])
  }

  /** The bitmap bytes that slab_create leaves alone are zero. */
  predicate Blank(before: seq<bv8>, r: nat)
    requires Radix(r) && |before| == SLAB_SIZE - HEADER
  {
    forall k :: LastReserved(r) < k < BitmapLen(r) - 1 ==> before[k] == 0
  }

  /** The bits that slab_create leaves. */
  function Left(before: seq<bv8>, r: nat): (bits: seq<bool>)
    requires Radix(r) && |before| == SLAB_SIZE - HEADER
    ensures |bits| == Cells(r)
  {
    Constants(r);
    seq(Cells(r), o requires 0 <= o < Cells(r) => Bit(Stamped(before, r), o))
  }

  lemma ZeroByte(b: bv8)
    ensures b == 0 <==> forall k :: 0 <= k < 8 ==> !BitAt(b, k)
  {
    if !BitAt(b, 0) && !BitAt(b, 1) && !BitAt(b, 2) && !BitAt(b, 3) {
      assert !BitAt(b, 4) && !BitAt(b, 5) && !BitAt(b, 6) && !BitAt(b, 7) ==> b == 0;
    }
  }

  /** One bit that slab_create leaves: reserved cells are in use, and cells of unwritten bytes are what memory says. */
  lemma LeftBit(before: seq<bv8>, r: nat, o: nat)
    requires Radix(r) && |before| == SLAB_SIZE - HEADER && o < Cells(r)
    ensures Left(before, r)[o] <==>
            o < Reserved(r) || (LastReserved(r) < o / 8 < BitmapLen(r) - 1 && BitAt(before[o / 8], o % 8))
  {
    hide Mask, Cells, Reserved, BitmapLen;
    Constants(r);
    FullByte(0xff);
    ZeroByte(0);
  }

  /** The bitmap is that of a fresh slab if and only if the bytes left alone are zero. */
  lemma LeftFresh(before: seq<bv8>, r: nat)
    requires Radix(r) && |before| == SLAB_SIZE - HEADER
    ensures Left(before, r) == Fresh(r).bits <==> Blank(before, r)
  {
    hide Mask, BitAt, Cells, Reserved, BitmapLen, Stamped, Left;
    Constants(r);
    if Left(before, r) == Fresh(r).bits {
      forall k | LastReserved(r) < k < BitmapLen(r) - 1
        ensures before[k] == 0
      {
        forall j | 0 <= j < 8 ensures !BitAt(before[k], j) { ByteBits(k, j); LeftBit(before, r, 8 * k + j); }
        ZeroByte(before[k]);
      }
    }
    if Blank(before, r) {
      forall o | 0 <= o < Cells(r) ensures Left(before, r)[o] == Fresh(r).bits[o] {
        LeftBit(before, r, o);
        ZeroByte(0);
      }
    }
  }

  lemma ByteBits(k: nat, j: nat)
    requires j < 8
    ensures (8 * k + j) / 8 == k && (8 * k + j) % 8 == j
  {
  }

  lemma StampedIs(before: seq<bv8>, r: nat, bits: seq<bool>)
    requires Radix(r) && |before| == SLAB_SIZE - HEADER && |bits| == Cells(r)
    ensures BitmapIs(Stamped(before, r), bits) <==> bits == Left(before, r)
  {
    hide Mask, BitAt, Cells, Reserved, Stamped;
    Constants(r);
    if BitmapIs(Stamped(before, r), bits) {
      forall o | 0 <= o < |bits| ensures bits[o] == Left(before, r)[o] {}
    }
  }

  lemma {:induction false} MoreInUse(a: seq<bool>, b: seq<bool>)
    requires |a| == |b| && forall o :: 0 <= o < |a| && a[o] ==> b[o]
    ensures ClearCount(b) <= ClearCount(a) && (ClearCount(b) == ClearCount(a) <==> a == b)
  {
    if a != [] {
      var n := |a| - 1;
      MoreInUse(a[..n], b[..n]);
      assert a == a[..n] + [a[n]] && b == b[..n] + [b[n]];
    }
  }

  /**
   The free count that slab_create stores is never below the number of clear bits it leaves, and equals it if and
   only if the bytes left alone are zero.
   */
  lemma CountAgainstBitmap(before: seq<bv8>, r: nat)
    requires Radix(r) && |before| == SLAB_SIZE - HEADER
    ensures ClearCount(Left(before, r)) <= Cells(r) - Reserved(r)
    ensures ClearCount(Left(before, r)) == Cells(r) - Reserved(r) <==> Blank(before, r)
  {
    hide Left, Cells, Reserved, ClearCount, Blank;
    FreshOk(r);
    forall o | 0 <= o < Cells(r) && Fresh(r).bits[o] ensures Left(before, r)[o] {
      LeftBit(before, r, o);
    }
    MoreInUse(Fresh(r).bits, Left(before, r));
    LeftFresh(before, r);
  }

  /** Memory is good for a slab of any radix if and only if the 62 bytes behind the first are zero. */
  lemma BlankForAll(before: seq<bv8>)
    requires |before| == SLAB_SIZE - HEADER
    ensures (forall r :: Radix(r) ==> Blank(before, r)) <==> forall k :: 1 <= k < 63 ==> before[k] == 0
  {
    assert LastReserved(1) == 4 && BitmapLen(1) == 64;
    assert LastReserved(2) == 1 && BitmapLen(2) == 32;
    assert LastReserved(3) == 0 && BitmapLen(3) == 16;
    assert LastReserved(4) == 0 && BitmapLen(4) == 8;
    assert LastReserved(5) == 0 && BitmapLen(5) == 4;
    assert LastReserved(6) == 0 && BitmapLen(6) == 2;
    if forall r :: Radix(r) ==> Blank(before, r) {
      assert Blank(before, 1) && Blank(before, 2) && Blank(before, 3);
    }
  }

  lemma ClearRun(bits: seq<bool>, lo: nat, hi: nat, b: bool)
    requires lo <= hi <= |bits| && forall o :: lo <= o < hi ==> bits[o] == b
    ensures ClearCount(bits[..hi]) == ClearCount(bits[..lo]) + if b then 0 else hi - lo
    decreases hi
  {
    if lo < hi {
      ClearRun(bits, lo, hi - 1, b);
      ClearCountPush(bits, hi);
    }
  }

  /** A slab after `n` allocations. */
  function Drained(s: Slab, n: nat): Slab {
    if n == 0 then s else TakeFirst(Drained(s, n - 1))
  }

  lemma {:induction false} DrainedCount(s: Slab, n: nat)
    ensures ClearCount(Drained(s, n).bits) == if n < ClearCount(s.bits) then ClearCount(s.bits) - n else 0
  {
    if n > 0 {
      DrainedCount(s, n - 1);
      var t := Drained(s, n - 1);
      ClearCountZero(t.bits);
      if FirstClear(t.bits) < |t.bits| {
        ClearCountUpdate(t.bits, FirstClear(t.bits), true);
      }
    }
  }

  /**
   A slab of 32-byte objects on memory full of ones: 31 objects are counted free, but only 15 bits are clear, so after
   15 allocations the bitmap is full while the count still says 16.
   */
  lemma DirtyRegion(before: seq<bv8>)
    requires |before| == SLAB_SIZE - HEADER && forall k :: 0 <= k < |before| ==> before[k] == 0xff
    ensures Cells(5) - Reserved(5) == 31 && ClearCount(Left(before, 5)) == 15
    ensures ClearCount(Drained(Slab(5, Left(before, 5)), 15).bits) == 0
  {
    hide ClearCount, Left;
    var bits := Left(before, 5);
    assert Cells(5) == 32 && Reserved(5) == 1 && LastReserved(5) == 0 && BitmapLen(5) == 4;
    FullByte(0xff);
    forall o | 0 <= o < 32 ensures bits[o] <==> o < 1 || 8 <= o < 24 {
      LeftBit(before, 5, o);
    }
    NoneClear(bits);
    ClearRun(bits, 0, 1, true);
    ClearRun(bits, 1, 8, false);
    ClearRun(bits, 8, 24, true);
    ClearRun(bits, 24, 32, false);
    assert bits[..32] == bits;
    DrainedCount(Slab(5, bits), 15);
  }

  lemma NoneClear(bits: seq<bool>)
    ensures ClearCount(bits[..0]) == 0
  {
  }

  /** The writes of slab_create to the bitmap: reserved cells, then the last byte. */
  method InitBitmap(body: array<bv8>, radix: nat)
    requires Radix(radix) && body.Length == SLAB_SIZE - HEADER
    modifies body
    ensures body[..] == Stamped(old(body[..]), radix)
    ensures BitmapIs(body[..], Fresh(radix).bits) <==> Blank(old(body[..]), radix)
  {
    hide Cells, BitmapIs, Blank, Left, Stamped;
    Constants(radix);
    LastIs(radix);
    ghost var before := body[..];
    var reserved: nat := Reserved(radix);
    var p: nat := 0;
    while reserved > 8
      invariant p < body.Length && reserved + 8 * p == Reserved(radix) && reserved > 0
      invariant forall k :: 0 <= k < p ==> body[k] == 0xff
      invariant forall k :: p <= k < body.Length ==> body[k] == before[k]
    {
      body[p] := 0xff;
      p := p + 1;
      reserved := reserved - 8;
    }
    body[p] := LowBits(reserved);
    var last: nat := BitmapLen(radix) - 1;
    reserved := BitmapLen(radix) * 8 - Cells(radix);
    // No cell lies behind the slab's end, so the source's loop over whole trailing bytes is not entered.
    assert reserved == 0 && last > p == LastReserved(radix);
    body[last] := !(0xff >> reserved);
    StampedFrom(before, body[..], radix);
    StampedIs(before, radix, Fresh(radix).bits);
    LeftFresh(before, radix);
  }

  lemma StampedFrom(before: seq<bv8>, after: seq<bv8>, r: nat)
    requires Radix(r) && |before| == |after| == SLAB_SIZE - HEADER
    requires forall k :: 0 <= k < LastReserved(r) ==> after[k] == 0xff
    requires after[LastReserved(r)] == LowBits(Reserved(r) - 8 * LastReserved(r)) && after[BitmapLen(r) - 1] == 0
    requires forall k :: LastReserved(r) < k < |after| && k != BitmapLen(r) - 1 ==> after[k] == before[k]
    ensures after == Stamped(before, r)
  {
    hide LowBits, Reserved, BitmapLen;
  }

  lemma LastIs(r: nat)
    requires Radix(r)
    ensures forall p: nat :: 8 * p < Reserved(r) <= 8 * p + 8 ==> p == LastReserved(r)
  {
  }

  // ---------------------------------------------------------------- the allocator

  lemma BitmapRoom(body: seq<bv8>, bits: seq<bool>, o: nat)
    requires BitmapIs(body, bits) && o < |bits|
    ensures o / 8 < |body|
  {
  }

  /** A slab with a clear bit has its first one at a cell. */
  lemma FirstClearFits(s: Slab)
    requires SlabOk(s)
    ensures ClearCount(s.bits) > 0 ==> FirstClear(s.bits) < |s.bits|
    ensures |s.bits| % 8 == 0
  {
    ClearCountZero(s.bits);
    Constants(s.radix);
  }

  /** Reserved cells stay in use. */
  lemma UpdateOk(s: Slab, o: nat, b: bool)
    requires o < |s.bits| && (b || (Radix(s.radix) && Reserved(s.radix) <= o))
    ensures SlabOk(s) ==> SlabOk(s.(bits := s.bits[o := b]))
  {
  }

  /** Storing one bit of a byte changes one bit of the bitmap. */
  lemma BitStored(body: seq<bv8>, r: seq<bv8>, bits: seq<bool>, o: nat, b: bool)
    requires BitmapIs(body, bits) && o < |bits|
    requires r == body[o / 8 := if b then body[o / 8] | Mask(o % 8) else body[o / 8] & !Mask(o % 8)]
    ensures BitmapIs(r, bits[o := b])
  {
    hide Mask, BitAt, Bit;
    forall j | 0 <= j < |bits|
      ensures Bit(r, j) <==> bits[o := b][j]
    {
      assert Bit(body, j) <==> bits[j];
      StoredBit(body, o, b, j);
    }
  }

  lemma StoredBit(body: seq<bv8>, o: nat, b: bool, j: nat)
    requires o / 8 < |body| && j / 8 < |body|
    ensures var r := body[o / 8 := if b then body[o / 8] | Mask(o % 8) else body[o / 8] & !Mask(o % 8)];
            Bit(r, j) <==> if j == o then b else Bit(body, j)
  {
    hide Mask, BitAt;
    SameBit(j, o);
    SetBit(body[o / 8], o % 8, j % 8);
    ClearBit(body[o / 8], o % 8, j % 8);
  }

  lemma SameBit(j: nat, o: nat)
    ensures j / 8 == o / 8 && j % 8 == o % 8 <==> j == o
  {
  }

  /** Behind a bitmap of `n` bits nothing has changed. */
  ghost predicate BehindSame(m: seq<bv8>, r: seq<bv8>, n: nat) {
    && |m| == |r|
    && forall k :: n <= 8 * k && k < |m| ==> r[k] == m[k]
  }

  /** From memory `m` to `r`, nothing has changed but bitmaps of the slabs `ss`, which come first in the region. */
  ghost predicate Kept(ss: seq<Slab>, m: seq<seq<bv8>>, r: seq<seq<bv8>>) {
    && |ss| <= |m| == |r|
    && forall i {:trigger r[i]} :: 0 <= i < |m| ==>
         if i < |ss| then BehindSame(m[i], r[i], |ss[i].bits|) else r[i] == m[i]
  }

  lemma KeptRefl(ss: seq<Slab>, m: seq<seq<bv8>>)
    requires |ss| <= |m|
    ensures Kept(ss, m, m)
  {
  }

  lemma KeptTrans(ss: seq<Slab>, us: seq<Slab>, m0: seq<seq<bv8>>, m: seq<seq<bv8>>, r: seq<seq<bv8>>)
    requires Kept(ss, m0, m) && Kept(us, m, r)
    requires |ss| <= |us| && forall i :: 0 <= i < |ss| ==> |ss[i].bits| == |us[i].bits|
    ensures Kept(us, m0, r)
  {
    forall i | 0 <= i < |m0| ensures if i < |us| then BehindSame(m0[i], r[i], |us[i].bits|) else r[i] == m0[i] {
      assert m[i] == m[i] && r[i] == r[i];
    }
  }

  /** Creating a slab writes only its bitmap. */
  lemma StampedKept(ss: seq<Slab>, r: nat, m: seq<seq<bv8>>)
    requires Radix(r) && |ss| < |m| && |m[|ss|]| == SLAB_SIZE - HEADER
    ensures Kept(ss + [Fresh(r)], m, m[|ss| := Stamped(m[|ss|], r)])
  {
    hide Cells, Reserved;
    Constants(r);
  }

  /** Storing a bit of a bitmap, with bits `n`, of slab `i`. */
  lemma StoredKept(ss: seq<Slab>, i: nat, m: seq<seq<bv8>>, r: seq<seq<bv8>>)
    requires i < |ss| <= |m| == |r| && BehindSame(m[i], r[i], |ss[i].bits|)
    requires forall k :: 0 <= k < |m| && k != i ==> r[k] == m[k]
    ensures Kept(ss, m, r)
  {
  }

  /** The bytes of an object survive where only bitmaps change. */
  lemma ObjectKept(ss: seq<Slab>, us: seq<Slab>, m: seq<seq<bv8>>, r: seq<seq<bv8>>, c: Cell, k: nat)
    requires Ok(ss) && IsLive(ss, c) && k < Shl1(ss[c.slab].radix) && Kept(us, m, r) && Extends(ss, us)
    requires |m[c.slab]| == SLAB_SIZE - HEADER
    ensures |r[c.slab]| == SLAB_SIZE - HEADER && r[c.slab][ObjectByte(ss, c, k)] == m[c.slab][ObjectByte(ss, c, k)]
  {
    assert r[c.slab] == r[c.slab];
  }

  /** Byte `k` of object `c` is the same in the memories `m` and `r`. */
  ghost predicate ByteKept(ss: seq<Slab>, m: seq<seq<bv8>>, r: seq<seq<bv8>>, c: Cell, k: nat) {
    && Ok(ss) && IsLive(ss, c) && k < Shl1(ss[c.slab].radix)
    && c.slab < |m| && c.slab < |r| && |m[c.slab]| == |r[c.slab]| == SLAB_SIZE - HEADER
    && r[c.slab][ObjectByte(ss, c, k)] == m[c.slab][ObjectByte(ss, c, k)]
  }

  lemma KeptOn(ss: seq<Slab>, us: seq<Slab>, m0: seq<seq<bv8>>, m: seq<seq<bv8>>, r: seq<seq<bv8>>)
    requires Kept(ss, m0, m) && Kept(us, m, r) && Extends(ss, us)
    ensures Kept(us, m0, r)
  {
    KeptTrans(ss, us, m0, m, r);
  }

  lemma ExtendsRefl(ss: seq<Slab>)
    ensures Extends(ss, ss)
  {
  }

  lemma ExtendsTrans(ss: seq<Slab>, us: seq<Slab>, vs: seq<Slab>)
    requires Extends(ss, us) && Extends(us, vs)
    ensures Extends(ss, vs)
  {
  }

  lemma RadixExact(r: nat)
    requires Radix(r)
    ensures 0 < Shl1(r) <= 64 && RadixFor(Shl1(r)) == r
  {
  }

  /** Slabs stay where they are and keep their size. */
  ghost predicate Extends(ss: seq<Slab>, us: seq<Slab>) {
    |ss| <= |us| && forall i :: 0 <= i < |ss| ==> us[i].radix == ss[i].radix && |us[i].bits| == |ss[i].bits|
  }

  lemma StepExtends(ss: seq<Slab>, cap: nat, q: Request)
    requires Admissible(ss, q)
    ensures Extends(ss, Step(ss, cap, q))
  {
  }

  /** *bitmap |= bit */
  method SetBitIn(body: array<bv8>, o: nat, ghost bits: seq<bool>)
    requires BitmapIs(body[..], bits) && o < |bits|
    modifies body
    ensures BitmapIs(body[..], bits[o := true]) && BehindSame(old(body[..]), body[..], |bits|)
  {
    hide BitmapIs;
    hide Mask;
    BitmapRoom(body[..], bits, o);
    body[o / 8] := body[o / 8] | Mask(o % 8);
    BitStored(old(body[..]), body[..], bits, o, true);
  }

  /** *bitmap &= ~bit */
  method ClearBitIn(body: array<bv8>, o: nat, ghost bits: seq<bool>)
    requires BitmapIs(body[..], bits) && o < |bits|
    modifies body
    ensures BitmapIs(body[..], bits[o := false]) && BehindSame(old(body[..]), body[..], |bits|)
  {
    hide BitmapIs;
    hide Mask;
    BitmapRoom(body[..], bits, o);
    body[o / 8] := body[o / 8] & !Mask(o % 8);
    BitStored(old(body[..]), body[..], bits, o, false);
  }

  /** The two bitmap scans of slab_alloc: whole bytes in use, then single bits. */
  method FindClear(body: array<bv8>, ghost bits: seq<bool>) returns (obj: nat)
    requires BitmapIs(body[..], bits) && FirstClear(bits) < |bits| && |bits| % 8 == 0
    ensures obj == FirstClear(bits)
  {
    hide Mask, BitAt, BitmapIs, FirstClear;
    ghost var o := FirstClear(bits);
    var p: nat := 0;
    obj := 0;
    BitmapBytes(body[..], bits);
    while body[p] == 0xff
      invariant p < |bits| / 8 <= body.Length && obj == 8 * p <= o
      decreases body.Length - p
    {
      ByteInUse(body[..], bits, p);
      p := p + 1;
      obj := obj + 8;
    }
    ByteHasRoom(body[..], bits, p);
    var bit: bv8 := 1;
    ghost var k: nat := 0;
    FirstMask();
    BitIs(body[..], bits, p, 0);
    while body[p] & bit != 0
      invariant k < 8 && obj == 8 * p + k <= o < 8 * p + 8 && bit == Mask(k)
      invariant body[p] & bit != 0 <==> bits[obj]
      decreases 8 - k
    {
      NextMask(k);
      bit := bit << 1;
      obj := obj + 1;
      k := k + 1;
      BitIs(body[..], bits, p, k);
    }
  }

  lemma BitmapBytes(body: seq<bv8>, bits: seq<bool>)
    requires BitmapIs(body, bits)
    ensures |bits| <= 8 * |body|
  {
  }

  lemma FirstMask()
    ensures Mask(0) == 1
  {
  }

  lemma NextMask(k: nat)
    requires k < 7
    ensures Mask(k) << 1 == Mask(k + 1)
  {
  }

  /** Bit `k` of byte `p`, as the scan reads it. */
  lemma BitIs(body: seq<bv8>, bits: seq<bool>, p: nat, k: nat)
    requires BitmapIs(body, bits) && k < 8 && 8 * p + k < |bits|
    ensures p < |body| && (body[p] & Mask(k) != 0 <==> bits[8 * p + k])
  {
    hide Mask;
    assert (8 * p + k) / 8 == p && (8 * p + k) % 8 == k;
    assert Bit(body, 8 * p + k) <==> bits[8 * p + k];
  }

  /** A byte of ones holds no free cell. */
  lemma ByteInUse(body: seq<bv8>, bits: seq<bool>, p: nat)
    requires BitmapIs(body, bits) && p < |bits| / 8 && body[p] == 0xff
    requires 8 * p <= FirstClear(bits) < |bits|
    ensures 8 * p + 8 <= FirstClear(bits)
  {
    hide Mask;
    FullByte(body[p]);
    forall o | 8 * p <= o < 8 * p + 8
      ensures bits[o]
    {
      var k := o - 8 * p;
      assert o / 8 == p && o % 8 == k;
      assert Bit(body, o) <==> bits[o];
    }
  }

  /** Any other byte holds the first free cell, if none came before. */
  lemma ByteHasRoom(body: seq<bv8>, bits: seq<bool>, p: nat)
    requires BitmapIs(body, bits) && p < |bits| / 8 && |bits| % 8 == 0 && body[p] != 0xff
    requires 8 * p <= FirstClear(bits) < |bits|
    ensures FirstClear(bits) < 8 * p + 8
  {
    hide Mask;
    FullByte(body[p]);
    var k :| 0 <= k < 8 && !BitAt(body[p], k);
    var o := 8 * p + k;
    assert o / 8 == p && o % 8 == k;
    assert Bit(body, o) <==> bits[o];
  }

  /** log2 of the smallest power of two, from 2 on, that is not below `size`. */
  function RadixFor(size: nat): (r: nat)
    requires 0 < size <= 64
    ensures Radix(r) && size <= Shl1(r) && (r > MIN_RADIX ==> Shl1(r - 1) < size)
  {
    if size <= 2 then 1 else if size <= 4 then 2 else if size <= 8 then 3
    else if size <= 16 then 4 else if size <= 32 then 5 else 6
  }

  /** The rounding of slab_alloc on a byte: fill the bits below the leading one, then add one. */
  function RoundUp(x: bv8): bv8 {
    var a := x - 1;
    var b := a | (a >> 1);
    var c := b | (b >> 2);
    var d := c | (c >> 4);
    d + 1
  }

  /** Rounding gives the power of two of the radix. */
  lemma RoundUpIsPower(size: nat)
    requires 2 <= size <= 64
    ensures RoundUp(size as bv8) as nat == Shl1(RadixFor(size))
  {
    var x := size as bv8;
    RoundUpCases(x);
  }

  lemma RoundUpCases(x: bv8)
    requires 2 <= x <= 64
    ensures RoundUp(x) == if x <= 2 then 2 else if x <= 4 then 4 else if x <= 8 then 8
                          else if x <= 16 then 16 else if x <= 32 then 32 else 64
  {
  }

  /** The radix computation of slab_alloc: round up, then count halvings. */
  method ComputeRadix(size: nat) returns (radix: nat)
    requires 0 < size <= 64
    ensures radix == RadixFor(size)
  {
    var n: nat := 2;
    if size >= 2 {
      RoundUpIsPower(size);
      n := RoundUp(size as bv8) as nat;
    }
    radix := 0;
    n := n / 2;
    while n != 0
      invariant radix <= RadixFor(size)
      invariant n == if radix == RadixFor(size) then 0 else Shl1(RadixFor(size) - 1 - radix)
    {
      n := n / 2;
      radix := radix + 1;
    }
  }

  class SlabAllocator {
    const frames: seq<Frame>
    const start: nat
    const heads: array<Frame?>
    var next: nat
    ghost var slabs: seq<Slab>

    /** The frame a chain link denotes when `n` slabs exist. */
    ghost function FrameAt(i: nat, n: nat): Frame?
      requires n <= |frames|
    {
      if i < n then frames[i] else null
    }

    /** The region consists of separate pieces of memory, in address order from an aligned start. */
    ghost predicate Separate() {
      && start > 0 && start % SLAB_SIZE == 0 && start + SLAB_SIZE * |frames| <= 0x1_0000_0000
      && heads.Length == MAX_RADIX - MIN_RADIX + 1
      && (forall i :: 0 <= i < |frames| ==>
            frames[i].body.Length == SLAB_SIZE - HEADER && frames[i].addr == start + SLAB_SIZE * i)
      && (forall i, j :: 0 <= i < j < |frames| ==> frames[i] != frames[j] && frames[i].body != frames[j].body)
    }

    /** The first `next` pieces are slabs. */
    ghost predicate Laid()
      reads this
    {
      && Separate()
      && next == |slabs| <= |frames|
    }

    /** The bytes behind the headers of the first `n` pieces. */
    ghost function Bodies(n: nat): (m: seq<seq<bv8>>)
      requires n <= |frames|
      reads set f | f in frames :: f.body
      ensures |m| == n && forall i :: 0 <= i < n ==> m[i] == frames[i].body[..]
    {
      if n == 0 then [] else Bodies(n - 1) + [frames[n - 1].body[..]]
    }

    /** The bytes behind the headers of the region. */
    ghost function Memory(): (m: seq<seq<bv8>>)
      reads set f | f in frames :: f.body
      ensures |m| == |frames| && forall i :: 0 <= i < |frames| ==> m[i] == frames[i].body[..]
    {
      Bodies(|frames|)
    }

    /** If an allocation of the radix needs a new slab, the next piece of the region is blank where it counts. */
    ghost predicate Ready(radix: nat)
      requires Valid() && Radix(radix)
      reads this, heads, frames, set f | f in frames :: f.body
    {
      Pick(slabs, radix, 0) == |slabs| < |frames| ==> Blank(frames[|slabs|].body[..], radix)
    }

    /** Every piece not handed out yet is blank for every radix. */
    ghost predicate Clean()
      reads this, set f | f in frames :: f.body
    {
      forall i, k :: |slabs| <= i < |frames| && 1 <= k < 63 && k < frames[i].body.Length ==> frames[i].body[k] == 0
    }

    /** Heads and next links chain the slabs of each radix in creation order. */
    ghost predicate Chained(ss: seq<Slab>)
      reads heads, frames`next
    {
      && heads.Length == MAX_RADIX - MIN_RADIX + 1
      && |ss| <= |frames|
      && (forall r :: MIN_RADIX <= r <= MAX_RADIX ==> heads[r - MIN_RADIX] == FrameAt(NextSame(ss, r, 0), |ss|))
      && (forall i {:trigger frames[i].next} :: 0 <= i < |ss| ==>
            frames[i].next == FrameAt(NextSame(ss, ss[i].radix, i + 1), |ss|))
    }

    ghost predicate Valid()
      reads this, heads, frames, set f | f in frames :: f.body
    {
      && Laid()
      && Chained(slabs)
      && Ok(slabs)
      && (forall i :: 0 <= i < |slabs| ==> Encodes(frames[i], slabs[i]))
    }

    /** slab_init over an aligned region of whole slabs, whatever its memory holds. */
    constructor (start: nat, contents: seq<seq<bv8>>)
      requires start > 0 && start % SLAB_SIZE == 0 && start + SLAB_SIZE * |contents| <= 0x1_0000_0000
      requires forall i :: 0 <= i < |contents| ==> |contents[i]| == SLAB_SIZE - HEADER
      ensures Valid() && slabs == [] && Memory() == contents && this.start == start
    {
      hide Memory, Chained, Ok, Encodes;
      var fs: seq<Frame> := [];
      while |fs| < |contents|
        invariant |fs| <= |contents|
        invariant forall i :: 0 <= i < |fs| ==> fresh(fs[i]) && fresh(fs[i].body)
        invariant forall i :: 0 <= i < |fs| ==> fs[i].body[..] == contents[i]
        invariant forall i :: 0 <= i < |fs| ==> fs[i].addr == start + SLAB_SIZE * i
        invariant forall i, j :: 0 <= i < j < |fs| ==> fs[i] != fs[j] && fs[i].body != fs[j].body
      {
        var f := new Frame(start + SLAB_SIZE * |fs|, contents[|fs|]);
        fs := fs + [f];
      }
      frames := fs;
      this.start := start;
      heads := new Frame?[MAX_RADIX - MIN_RADIX + 1](_ => null);
      next := 0;
      slabs := [];
      new;
      EmptyValid();
      MemoryIs(contents);
    }

    lemma EmptyValid()
      requires Separate() && next == 0 && slabs == [] && forall k :: 0 <= k < heads.Length ==> heads[k] == null
      ensures Valid()
    {
    }

    /** `prev` is where a new slab of the radix must be chained: nowhere, or at its last slab `i`. */
    ghost predicate ChainEnd(radix: nat, prev: Frame?, i: nat)
      reads this
    {
      if prev == null then NextSame(slabs, radix, 0) == |slabs|
      else i < |slabs| <= |frames| && frames[i] == prev && slabs[i].radix == radix
           && NextSame(slabs, radix, i + 1) == |slabs|
    }

    /** slab_create, with the store through its result pointer: a list head or the next link of `prev`. */
    method SlabCreate(radix: nat, prev: Frame?, ghost i: nat) returns (ret: int, f: Frame?)
      requires Valid() && ChainEnd(radix, prev, i)
      modifies this, heads, frames, set g | g in frames :: g.body
      ensures ret == if !Radix(radix) then -22 else if |old(slabs)| == |frames| then -12 else 0
      ensures ret != 0 ==> Valid() && slabs == old(slabs) && Memory() == old(Memory())
      ensures ret == 0 ==> |old(slabs)| < |frames| && slabs == old(slabs) + [Fresh(radix)] && Laid() && Chained(slabs)
                           && f == frames[|old(slabs)|] && (prev != null ==> prev.next == f)
      ensures ret == 0 ==> |old(Memory()[|slabs|])| == SLAB_SIZE - HEADER
                           && Memory() == old(Memory())[|old(slabs)| := Stamped(old(Memory()[|slabs|]), radix)]
                           && (Valid() <==> Blank(old(Memory()[|slabs|]), radix))
    {
      hide Cells;
      hide Reserved;
      hide ClearCount;
      hide Bit;
      hide BitmapIs;
      hide SlabOk;
      hide NextSame;
      hide Fresh;
      hide BitmapLen;
      hide Separate;
      hide Chained;
      hide Encodes;
      hide Ok;
      hide Stamped;
      hide Blank;
      if !Radix(radix) {
        return -22, null;
      }
      if next >= |frames| {
        return -12, null;
      }
      ghost var ss := slabs;
      f := frames[next];
      FreshOk(radix);
      PrepareNext(radix);
      ghost var m := Memory();
      HeadsApart();
      LinkFrame(f, Fresh(radix), prev, i);
      assert Memory() == m;
      CreatedValid(ss, radix);
      ret := 0;
    }

    /** With a slab more at the end, everything rests on the last bitmap. */
    lemma CreatedValid(ss: seq<Slab>, radix: nat)
      requires Laid() && Chained(slabs) && Radix(radix) && slabs == ss + [Fresh(radix)]
      requires Ok(ss) && forall k :: 0 <= k < |ss| ==> Encodes(frames[k], ss[k])
      ensures Valid() <==> Encodes(frames[|ss|], Fresh(radix))
    {
      hide Chained, Encodes, SlabOk, Fresh, Separate;
      FreshOk(radix);
    }

    /** The list heads are no bitmap. */
    lemma HeadsApart()
      requires Separate()
      ensures forall k :: 0 <= k < |frames| ==> frames[k].body as object != heads
    {
      assert heads.Length != SLAB_SIZE - HEADER;
    }

    /** Prepare the first unused frame; slabs and chains are as before. */
    method PrepareNext(radix: nat)
      requires Valid() && Radix(radix) && next < |frames|
      modifies frames[next], frames[next].body
      ensures Chained(slabs) && frames[next].next == null && frames[next].radix == radix
      ensures forall k :: 0 <= k < |slabs| ==> Encodes(frames[k], slabs[k])
      ensures |old(Memory()[next])| == SLAB_SIZE - HEADER
      ensures Memory() == old(Memory())[next := Stamped(old(Memory()[next]), radix)]
      ensures Encodes(frames[next], Fresh(radix)) <==> Blank(old(Memory()[next]), radix)
    {
      hide Encodes, Ok, NextSame, Stamped, Blank;
      ghost var ss, m := slabs, Memory();
      forall k | 0 <= k < |frames| && k != next
        ensures frames[k] != frames[next] && frames[k].body != frames[next].body
      {
        FramesDiffer(next, k);
      }
      assert forall k :: 0 <= k < |ss| ==> Encodes(frames[k], ss[k]);
      PrepareFrame(frames[next], radix);
      MemoryIs(m[next := Stamped(m[next], radix)]);
    }

    lemma MemoryIs(m: seq<seq<bv8>>)
      requires |m| == |frames| && forall i :: 0 <= i < |m| ==> m[i] == frames[i].body[..]
      ensures Memory() == m
    {
    }

    /** Initialise the bitmap and the header fields of a frame nothing points to yet. */
    method PrepareFrame(f: Frame, radix: nat)
      requires Radix(radix) && f.body.Length == SLAB_SIZE - HEADER
      modifies f, f.body
      ensures f.next == null && f.radix == radix && f.body[..] == Stamped(old(f.body[..]), radix)
      ensures Encodes(f, Fresh(radix)) <==> Blank(old(f.body[..]), radix)
    {
      hide BitmapIs, Blank, Stamped;
      FreshOk(radix);
      InitBitmap(f.body, radix);
      f.next := null;
      f.free := Cells(radix) - Reserved(radix);
      f.radix := radix;
    }

    /** Hook the prepared frame, which holds slab `s`, onto the end of its chain. */
    method LinkFrame(f: Frame, ghost s: Slab, prev: Frame?, ghost i: nat)
      requires Separate() && Chained(slabs) && Radix(s.radix) && ChainEnd(s.radix, prev, i)
      requires next == |slabs| < |frames| && f == frames[next] && f.next == null && f.radix == s.radix
      modifies this`next, this`slabs, heads, (if prev == null then {} else {prev})`next
      ensures next == old(next) + 1 && slabs == old(slabs) + [s]
      ensures Chained(slabs)
      ensures prev != null ==> prev.next == f
    {
      hide NextSame;
      hide Separate;
      HeadsLength();
      ghost var ss, hs, links := slabs, heads[..], Links(|slabs|);
      if prev != null {
        prev.next := f;
      } else {
        heads[f.radix - MIN_RADIX] := f;
      }
      forall k | 0 <= k < |ss| ensures frames[k].next == if prev != null && k == i then f else links[k] {
        if prev != null { FramesDiffer(i, k); }
      }
      if prev != null { FramesDiffer(i, |ss|); }
      next := next + 1;
      slabs := slabs + [s];
      ChainsExtended(ss, s, prev, i, links, hs, f);
    }

    /** The next links of the first `n` frames. */
    ghost function Links(n: nat): (r: seq<Frame?>)
      requires n <= |frames|
      reads frames`next
      ensures |r| == n && forall k :: 0 <= k < n ==> r[k] == frames[k].next
    {
      if n == 0 then [] else Links(n - 1) + [frames[n - 1].next]
    }

    /** Heads and links after slab `s`, in the last frame, was hooked onto the end of its chain. */
    lemma ChainsExtended(ss: seq<Slab>, s: Slab, prev: Frame?, i: nat, links: seq<Frame?>, hs: seq<Frame?>, f: Frame)
      requires |ss| == |links| < |frames| && f == frames[|ss|] && f.next == null && Radix(s.radix)
      requires |hs| == heads.Length == MAX_RADIX - MIN_RADIX + 1
      requires forall r :: MIN_RADIX <= r <= MAX_RADIX ==> hs[r - MIN_RADIX] == FrameAt(NextSame(ss, r, 0), |ss|)
      requires forall k :: 0 <= k < |ss| ==> links[k] == FrameAt(NextSame(ss, ss[k].radix, k + 1), |ss|)
      requires heads[..] == if prev == null then hs[s.radix - MIN_RADIX := f] else hs
      requires forall k :: 0 <= k < |ss| ==> frames[k].next == if prev != null && k == i then f else links[k]
      requires if prev == null then NextSame(ss, s.radix, 0) == |ss|
               else i < |ss| && ss[i].radix == s.radix && NextSame(ss, s.radix, i + 1) == |ss|
      ensures Chained(ss + [s])
    {
      hide NextSame;
      var us := ss + [s];
      HeadsExtended(ss, s, prev, i, hs, heads[..], f);
      forall k | 0 <= k < |us| ensures frames[k].next == FrameAt(NextSame(us, us[k].radix, k + 1), |us|) {
        NextExtended(ss, s, prev, i, k, if k < |ss| then links[k] else null, frames[k].next, f);
      }
    }

    lemma HeadsLength()
      requires Separate()
      ensures heads.Length == MAX_RADIX - MIN_RADIX + 1
    {
    }

    lemma FramesDiffer(i: nat, k: nat)
      requires Separate() && i < |frames| && k < |frames|
      ensures frames[i] == frames[k] <==> i == k
      ensures frames[i].body == frames[k].body <==> i == k
    {
    }

    /** The list heads after slab `s` was appended and hooked in. */
    lemma HeadsExtended(ss: seq<Slab>, s: Slab, prev: Frame?, i: nat, hs: seq<Frame?>, hs': seq<Frame?>, f: Frame)
      requires |ss| < |frames| && f == frames[|ss|] && Radix(s.radix) && |hs| == MAX_RADIX - MIN_RADIX + 1
      requires forall r :: MIN_RADIX <= r <= MAX_RADIX ==> hs[r - MIN_RADIX] == FrameAt(NextSame(ss, r, 0), |ss|)
      requires hs' == if prev == null then hs[s.radix - MIN_RADIX := f] else hs
      requires if prev == null then NextSame(ss, s.radix, 0) == |ss| else i < |ss| && ss[i].radix == s.radix
      ensures forall r :: MIN_RADIX <= r <= MAX_RADIX ==>
                hs'[r - MIN_RADIX] == FrameAt(NextSame(ss + [s], r, 0), |ss| + 1)
    {
      forall r | MIN_RADIX <= r <= MAX_RADIX
        ensures hs'[r - MIN_RADIX] == FrameAt(NextSame(ss + [s], r, 0), |ss| + 1)
      {
        NextSameAppend(ss, s, r, 0);
      }
    }

    /** The next link of slab `k` after slab `s` was appended and hooked in. */
    lemma NextExtended(ss: seq<Slab>, s: Slab, prev: Frame?, i: nat, k: nat, was: Frame?, now: Frame?, f: Frame)
      requires |ss| < |frames| && f == frames[|ss|] && k <= |ss|
      requires if prev == null then NextSame(ss, s.radix, 0) == |ss|
               else i < |ss| && ss[i].radix == s.radix && NextSame(ss, s.radix, i + 1) == |ss|
      requires was == if k < |ss| then FrameAt(NextSame(ss, ss[k].radix, k + 1), |ss|) else null
      requires now == if prev != null && k == i then f else was
      ensures now == FrameAt(NextSame(ss + [s], (ss + [s])[k].radix, k + 1), |ss| + 1)
    {
      hide NextSame;
      if k < |ss| {
        NextSameAppend(ss, s, ss[k].radix, k + 1);
        ChainEndUnique(ss, s.radix, prev != null, i, k);
      }
    }

    /** slab_alloc: the address of an object with room for `size` bytes, or 0. */
    method SlabAlloc(size: nat) returns (ptr: nat)
      requires Valid() && size < 0x1_0000_0000 && (0 < size <= 64 ==> Ready(RadixFor(size)))
      modifies this, heads, frames, set g | g in frames :: g.body
      ensures Valid() && Kept(slabs, old(Memory()), Memory())
      ensures size == 0 || size > 64 ==> ptr == 0 && slabs == old(slabs)
      ensures 0 < size <= 64 ==>
                && slabs == AfterAlloc(old(slabs), |frames|, RadixFor(size))
                && ptr == PointerTo(slabs, AllocResult(old(slabs), |frames|, RadixFor(size)))
    {
      hide ClearCount;
      hide BitmapIs;
      hide Laid;
      hide Chained;
      hide Shl1;
      hide RadixFor;
      hide AfterAlloc;
      hide AllocResult;
      hide TakeFirst;
      hide Fresh;
      hide SlabOk;
      hide Encodes;
      hide Kept, Blank;
      KeptNow();
      if size == 0 || size > 64 {
        return 0;
      }
      var radix := ComputeRadix(size);
      ghost var m0 := Memory();
      var f, i := FindSlab(radix);
      if f == null {
        AllocFails(old(slabs), |frames|, radix);
        return 0;
      }
      ghost var mid, m := slabs, Memory();
      var obj := TakeCell(f, i);
      TakenBits(mid, i);
      KeptTrans(mid, slabs, m0, m, Memory());
      AllocIs(old(slabs), |frames|, radix, mid);
      Located(i, f);
      ProductIsNat(obj, Shl1(radix));
      ptr := f.addr + obj * Shl1(radix);
    }

    lemma ProductIsNat(a: nat, b: nat)
      ensures 0 <= a * b
    {
    }

    lemma KeptNow()
      requires Laid()
      ensures Kept(slabs, Memory(), Memory())
    {
      KeptRefl(slabs, Memory());
    }

    lemma TakenBits(ss: seq<Slab>, i: nat)
      requires i < |ss|
      ensures forall k :: 0 <= k < |ss| ==> |ss[k].bits| == |ss[i := TakeFirst(ss[i])][k].bits|
    {
    }

    lemma Located(i: nat, f: Frame)
      requires Laid() && i < |slabs| && f == frames[i]
      ensures f.addr == start + SLAB_SIZE * i
    {
    }

    /** Claim the first free cell of slab `i`. */
    method TakeCell(f: Frame, ghost i: nat) returns (obj: nat)
      requires Valid() && i < |slabs| && f == frames[i] && f.free > 0
      modifies this`slabs, f`free, f.body
      ensures Valid()
      ensures slabs == old(slabs)[i := TakeFirst(old(slabs)[i])]
      ensures obj == FirstClear(old(slabs)[i].bits) < |old(slabs)[i].bits|
      ensures Kept(slabs, old(Memory()), Memory())
    {
      hide ClearCount;
      hide Laid;
      hide Chained;
      hide SlabOk;
      hide Mask;
      hide Kept;
      ghost var s := slabs[i];
      assert Encodes(f, s) && SlabOk(s);
      FirstClearFits(s);
      obj := FindClear(f.body, s.bits);
      StoreCell(f, i, obj, true);
    }

    /** Set or clear one bit of slab `i` and count it. */
    method StoreCell(f: Frame, ghost i: nat, obj: nat, inUse: bool)
      requires Valid() && i < |slabs| && f == frames[i] && obj < |slabs[i].bits| && slabs[i].bits[obj] != inUse
      requires inUse || (Radix(slabs[i].radix) && Reserved(slabs[i].radix) <= obj)
      modifies this`slabs, f`free, f.body
      ensures Valid()
      ensures slabs == old(slabs)[i := old(slabs)[i].(bits := old(slabs)[i].bits[obj := inUse])]
      ensures Kept(slabs, old(Memory()), Memory())
    {
      hide ClearCount, SlabOk, NextSame, BitmapIs, Bit, Mask, Cells, Reserved, Shl1, BitmapLen, Encodes, Chained;
      hide BehindSame, Kept;
      ghost var ss, s, m := slabs, slabs[i], Memory();
      ghost var t := s.(bits := s.bits[obj := inUse]);
      UpdateOk(s, obj, inUse);
      assert Encodes(f, s) && SlabOk(s);
      forall k | 0 <= k < |ss| && k != i
        ensures frames[k] != f && frames[k].body != f.body && Encodes(frames[k], ss[k])
      {
        FramesDiffer(i, k);
      }
      forall k | 0 <= k < |frames| && k != i ensures frames[k].body != f.body {
        FramesDiffer(i, k);
      }
      StoreBit(f, s, obj, inUse);
      slabs := slabs[i := t];
      ChainsKept(ss, i, t);
      assert forall k :: 0 <= k < |ss| && k != i ==> Encodes(frames[k], slabs[k]);
      StoredKept(slabs, i, m, Memory());
    }

    lemma ChainsKept(ss: seq<Slab>, i: nat, t: Slab)
      requires Chained(ss) && i < |ss| && t.radix == ss[i].radix
      ensures Chained(ss[i := t])
    {
      hide NextSame;
      var us := ss[i := t];
      forall r | MIN_RADIX <= r <= MAX_RADIX ensures heads[r - MIN_RADIX] == FrameAt(NextSame(us, r, 0), |us|) {
        NextSameUpdate(ss, i, t, r, 0);
      }
      forall k | 0 <= k < |us| ensures frames[k].next == FrameAt(NextSame(us, us[k].radix, k + 1), |us|) {
        NextSameUpdate(ss, i, t, us[k].radix, k + 1);
      }
    }

    /** The stores to bitmap byte and free count. */
    method StoreBit(f: Frame, ghost s: Slab, obj: nat, inUse: bool)
      requires Encodes(f, s) && obj < |s.bits| && s.bits[obj] != inUse
      modifies f`free, f.body
      ensures Encodes(f, s.(bits := s.bits[obj := inUse])) && BehindSame(old(f.body[..]), f.body[..], |s.bits|)
    {
      hide ClearCount;
      hide BitmapIs;
      hide BehindSame;
      ClearCountUpdate(s.bits, obj, inUse);
      if inUse {
        SetBitIn(f.body, obj, s.bits);
        f.free := f.free - 1;
      } else {
        ClearBitIn(f.body, obj, s.bits);
        f.free := f.free + 1;
      }
    }

    /** Address of the allocated cell; 0 for none. */
    ghost function PointerTo(ss: seq<Slab>, c: Option<Cell>): nat {
      match c
      case None => 0
      case Some(c) => if c.slab < |ss| && Radix(ss[c.slab].radix) then Address(ss, start, c) else 0
    }

    /** What looking for a slab with a free cell, from slab `from` on, must come to. */
    ghost predicate Found(ss: seq<Slab>, radix: nat, from: nat, f: Frame?, i: nat)
      requires from <= |ss| && Radix(radix)
      reads this, if f == null then {} else {f}
    {
      var p := Pick(ss, radix, from);
      if f == null then p == |ss| == |frames| && slabs == ss
      else
        && i == p < |slabs| <= |frames| && f == frames[p] && f.free > 0
        && slabs == if p < |ss| then ss else ss + [Fresh(radix)]
    }

    /** The first slab of the radix with a free cell, created if need be. */
    method FindSlab(radix: nat) returns (f: Frame?, ghost i: nat)
      requires Valid() && Radix(radix) && Ready(radix)
      modifies this, heads, frames, set g | g in frames :: g.body
      ensures Valid() && Kept(slabs, old(Memory()), Memory())
      ensures Found(old(slabs), radix, 0, f, i)
    {
      hide Kept, Stamped, Blank;
      hide Fresh;
      hide ClearCount;
      hide BitmapIs;
      hide SlabOk;
      ghost var ss := slabs;
      f := heads[radix - MIN_RADIX];
      i := NextSame(ss, radix, 0);
      PickSkips(ss, radix, 0);
      FreshOk(radix);
      if f == null {
        i := |ss|;
        var ret;
        ghost var m := Memory();
        ret, f := SlabCreate(radix, null, 0);
        if ret != 0 {
          f := null;
          KeptRefl(slabs, Memory());
        } else {
          StampedKept(ss, radix, m);
        }
      } else {
        f, i := WalkChain(radix, f, i);
      }
    }

    /** The chain walk of slab_alloc, which extends the chain when it runs off its end. */
    method WalkChain(radix: nat, first: Frame, ghost from: nat) returns (f: Frame?, ghost i: nat)
      requires Valid() && Radix(radix) && from < |slabs| && slabs[from].radix == radix && first == frames[from]
      requires Pick(slabs, radix, from) == Pick(slabs, radix, 0) && Ready(radix)
      modifies this, heads, frames, set g | g in frames :: g.body
      ensures Valid() && Kept(slabs, old(Memory()), Memory())
      ensures Found(old(slabs), radix, from, f, i)
    {
      hide Fresh;
      hide ClearCount;
      hide BitmapIs;
      hide SlabOk;
      hide NextSame;
      hide Kept, Stamped, Blank;
      ghost var ss, m := slabs, Memory();
      KeptRefl(ss, m);
      var slab := first;
      i := from;
      ghost var created := false;
      FreshOk(radix);
      while slab.free == 0
        invariant Valid() && i < |slabs| && slab == frames[i] && slabs[i].radix == radix
        invariant Kept(slabs, m, Memory())
        invariant !created ==> slabs == ss && Memory() == m && Pick(ss, radix, from) == Pick(ss, radix, i)
        invariant created ==> slabs == ss + [Fresh(radix)] && i == |ss| == Pick(ss, radix, from) && slab.free > 0
        decreases if created then 0 else |ss| - i + 1
      {
        ghost var j := NextSame(ss, radix, i + 1);
        PickPasses(ss, radix, i);
        if slab.next == null {
          var ret, made := SlabCreate(radix, slab, i);
          if ret != 0 {
            f := null;
            return;
          }
          created := true;
          StampedKept(ss, radix, m);
        }
        slab := slab.next;
        i := j;
      }
      f := slab;
    }

    /** Slab and bit of an object, from its address alone. */
    method FindCell(ptr: nat, ghost c: Cell) returns (f: Frame, offset: nat)
      requires Valid() && IsObject(slabs, c) && ptr == Address(slabs, start, c)
      ensures c.slab < |slabs| && f == frames[c.slab] && offset == c.pos && Encodes(f, slabs[c.slab])
    {
      hide ClearCount, BitmapIs, Chained, Shl1, Cells, Reserved, Mask, SlabOk;
      MaskingFindsCell(slabs, start, c);
      f := SlabAt(ptr - ptr % SLAB_SIZE, c.slab);
      assert Encodes(f, slabs[c.slab]);
      offset := ptr % SLAB_SIZE / Shl1(f.radix);
    }

    /** slab_free of NULL or of an object `c`, which is left alone if it is free already. */
    method SlabFree(ptr: nat, ghost c: Cell)
      requires Valid() && (ptr == 0 || (IsObject(slabs, c) && ptr == Address(slabs, start, c)))
      modifies this`slabs, frames, set g | g in frames :: g.body
      ensures Valid() && Kept(slabs, old(Memory()), Memory())
      ensures slabs == if ptr == 0 then old(slabs) else AfterFree(old(slabs), c)
    {
      hide ClearCount, BitmapIs, Chained, Shl1, Cells, Reserved, Mask, SlabOk, Kept;
      KeptNow();
      if ptr == 0 {
        return;
      }
      ghost var s := slabs[c.slab];
      var f, offset := FindCell(ptr, c);
      BitmapRoom(f.body[..], s.bits, offset);
      BitOf(f.body[..], s.bits, offset);
      if f.body[offset / 8] & Mask(offset % 8) != 0 {
        StoreCell(f, c.slab, offset, false);
      } else {
        assert s.bits[offset := false] == s.bits;
      }
    }

    lemma CleanReady(radix: nat)
      requires Valid() && Clean() && Radix(radix)
      ensures Ready(radix)
    {
      if |slabs| < |frames| { BlankForAll(frames[|slabs|].body[..]); }
    }

    /** Memory not handed out stays as it was. */
    lemma CleanKept(n: nat, m: seq<seq<bv8>>)
      requires n <= |slabs| && Kept(slabs, m, Memory())
      requires forall i, k :: n <= i < |m| && 1 <= k < 63 && k < |m[i]| ==> m[i][k] == 0
      ensures Clean()
    {
      forall i, k | |slabs| <= i < |frames| && 1 <= k < 63 && k < frames[i].body.Length
        ensures frames[i].body[k] == 0
      {
        assert Memory()[i] == m[i] && Memory()[i][k] == frames[i].body[k];
      }
    }

    /** One request of a client. */
    method Perform(q: Request)
      requires Valid() && Clean() && Admissible(slabs, q)
      modifies this, heads, frames, set g | g in frames :: g.body
      ensures Valid() && Clean() && slabs == Step(old(slabs), |frames|, q)
      ensures Kept(slabs, old(Memory()), Memory()) && Extends(old(slabs), slabs)
    {
      hide Laid, Chained, Ok, Encodes, Kept, AfterAlloc, AfterFree, IsObject, Extends;
      ghost var ss, m := slabs, Memory();
      StepExtends(ss, |frames|, q);
      match q {
        case Alloc(r) =>
          CleanReady(r);
          RadixExact(r);
          var _ := SlabAlloc(Shl1(r));
        case Free(c) =>
          ObjectOf(c);
          SlabFree(frames[c.slab].addr + c.pos * Shl1(frames[c.slab].radix), c);
      }
      assert |ss| <= |slabs| by { ExtendsLonger(ss, slabs); }
      CleanKept(|ss|, m);
    }

    lemma ExtendsLonger(ss: seq<Slab>, us: seq<Slab>)
      requires Extends(ss, us)
      ensures |ss| <= |us|
    {
    }

    lemma ObjectOf(c: Cell)
      requires Valid() && IsLive(slabs, c)
      ensures IsObject(slabs, c) && c.slab < |frames| && frames[c.slab].radix == slabs[c.slab].radix <= 10
      ensures frames[c.slab].addr + c.pos * Shl1(frames[c.slab].radix) == Address(slabs, start, c) > 0
    {
      hide Shl1, Chained;
      assert Encodes(frames[c.slab], slabs[c.slab]);
      ProductIsNat(c.pos, Shl1(slabs[c.slab].radix));
    }

    /**
     A run of requests over one region: the slabs are those of the run on slab lists, and every byte of the objects
     live at the start, freed meanwhile or not, is as before.
     */
    method Serve(qs: seq<Request>)
      requires Valid() && Clean() && AdmissibleRun(slabs, |frames|, qs)
      modifies this, heads, frames, set g | g in frames :: g.body
      ensures Valid() && Clean() && slabs == Run(old(slabs), |frames|, qs)
      ensures Kept(slabs, old(Memory()), Memory()) && Extends(old(slabs), slabs)
      ensures forall c, k :: IsLive(old(slabs), c) && 0 <= k < Shl1(old(slabs)[c.slab].radix) ==>
                ByteKept(old(slabs), old(Memory()), Memory(), c, k)
      decreases |qs|
    {
      hide Laid, Chained, Ok, Encodes, Kept, Step, Admissible, ByteKept, Extends, IsLive;
      ghost var ss, m := slabs, Memory();
      if qs == [] {
        KeptNow();
        ExtendsRefl(ss);
      } else {
        Perform(qs[0]);
        ghost var us, n := slabs, Memory();
        Serve(qs[1..]);
        ExtendsTrans(ss, us, slabs);
        KeptOn(us, slabs, m, n, Memory());
      }
      ObjectsKept(ss, m);
    }

    lemma ObjectsKept(ss: seq<Slab>, m: seq<seq<bv8>>)
      requires Laid() && Ok(ss) && Kept(slabs, m, Memory()) && Extends(ss, slabs)
      ensures forall c, k :: IsLive(ss, c) && 0 <= k < Shl1(ss[c.slab].radix) ==> ByteKept(ss, m, Memory(), c, k)
    {
      hide Kept, Ok, Extends, Shl1;
      forall c, k | IsLive(ss, c) && 0 <= k < Shl1(ss[c.slab].radix)
        ensures ByteKept(ss, m, Memory(), c, k)
      {
        LiveInside(ss, c, m);
        ObjectKept(ss, slabs, m, Memory(), c, k);
      }
    }

    lemma LiveInside(ss: seq<Slab>, c: Cell, m: seq<seq<bv8>>)
      requires Separate() && IsLive(ss, c) && Kept(slabs, m, Memory()) && Extends(ss, slabs)
      ensures c.slab < |ss| && Radix(ss[c.slab].radix)
      ensures c.slab < |m| == |Memory()| && |m[c.slab]| == |Memory()[c.slab]| == SLAB_SIZE - HEADER
    {
      assert Memory()[c.slab] == frames[c.slab].body[..];
    }

    /** A client's write into one of its objects: it reaches neither header nor bitmap of any slab. */
    method ClientWrite(c: Cell, k: nat, v: bv8)
      requires Valid() && IsLive(slabs, c) && k < Shl1(slabs[c.slab].radix)
      modifies if c.slab < |frames| then {frames[c.slab].body} else {}
      ensures Valid()
      ensures frames[c.slab].body[..] == old(frames[c.slab].body[..])[ObjectByte(slabs, c, k) := v]
    {
      hide ClearCount, BitmapIs, Chained, Mask, Cells, Reserved, SlabOk, Bit, Shl1, BitmapLen, NextSame, IsLive;
      LiveInRange(c);
      ghost var s, body := slabs[c.slab], frames[c.slab].body[..];
      var f := frames[c.slab];
      assert Encodes(f, s);
      ghost var i := ObjectByte(slabs, c, k);
      f.body[c.pos * Shl1(f.radix) + k - HEADER] := v;
      BeyondBitmap(body, s.bits, i, v);
    }

    lemma LiveInRange(c: Cell)
      requires IsLive(slabs, c)
      ensures c.slab < |slabs| && Radix(slabs[c.slab].radix)
    {
    }

    lemma BeyondBitmap(body: seq<bv8>, bits: seq<bool>, i: nat, v: bv8)
      requires BitmapIs(body, bits) && i < |body| && |bits| <= 8 * i
      ensures BitmapIs(body[i := v], bits)
    {
      hide BitAt;
      forall o | 0 <= o < |bits| ensures Bit(body[i := v], o) <==> bits[o] {
        assert Bit(body, o) <==> bits[o];
      }
    }

    /** The slab header at an aligned address of the region. */
    method SlabAt(addr: nat, ghost i: nat) returns (f: Frame)
      requires Separate() && i < |frames| && addr == start + SLAB_SIZE * i
      ensures f == frames[i]
    {
      f := frames[(addr - start) / SLAB_SIZE];
    }

    /** slab_get_stats, by a walk over the chain of the radix. */
    method SlabGetStats(radix: nat) returns (ret: int, total: nat, free: nat)
      requires Valid()
      ensures !Radix(radix) ==> ret == -22
      ensures Radix(radix) ==> ret == 0 && total == Total(slabs, radix) && free == FreeCells(slabs, radix)
    {
      hide ClearCount;
      hide BitmapIs;
      hide Cells;
      hide Reserved;
      hide NextSame;
      hide SlabOk;
      hide Laid;
      hide Total;
      hide FreeCells;
      total, free := 0, 0;
      if !Radix(radix) {
        return -22, 0, 0;
      }
      FreshOk(radix);
      var slab := heads[radix - MIN_RADIX];
      ghost var i := NextSame(slabs, radix, 0);
      SumsSkip(slabs, radix, 0, i);
      SumsEmpty(slabs, radix);
      while slab != null
        invariant i <= |slabs| <= |frames| && slab == FrameAt(i, |slabs|) && (i < |slabs| ==> slabs[i].radix == radix)
        invariant total == Total(slabs[..i], radix) && free == FreeCells(slabs[..i], radix)
        decreases |slabs| - i
      {
        assert Encodes(frames[i], slabs[i]);
        total := total + (Cells(radix) - Reserved(radix));
        free := free + slab.free;
        SumsPush(slabs, radix, i);
        slab := slab.next;
        ghost var j := NextSame(slabs, radix, i + 1);
        SumsSkip(slabs, radix, i + 1, j);
        i := j;
      }
      assert slabs[..i] == slabs;
      ret := 0;
    }
  }

  lemma SumsPush(ss: seq<Slab>, r: nat, i: nat)
    requires Radix(r) && i < |ss|
    ensures Total(ss[..i + 1], r) == Total(ss[..i], r) + if ss[i].radix == r then
              (FreshOk(r); Cells(r) - Reserved(r)) else 0
    ensures FreeCells(ss[..i + 1], r) == FreeCells(ss[..i], r) + if ss[i].radix == r then ClearCount(ss[i].bits) else 0
  {
    assert ss[..i + 1][..i] == ss[..i];
  }

  lemma SumsEmpty(ss: seq<Slab>, r: nat)
    requires Radix(r)
    ensures Total(ss[..0], r) == 0 && FreeCells(ss[..0], r) == 0
  {
  }

  /** Slabs of other radixes add nothing to the sums. */
  lemma {:induction false} SumsSkip(ss: seq<Slab>, r: nat, i: nat, j: nat)
    requires Radix(r) && i <= j <= |ss| && forall k :: i <= k < j ==> ss[k].radix != r
    ensures Total(ss[..j], r) == Total(ss[..i], r) && FreeCells(ss[..j], r) == FreeCells(ss[..i], r)
    decreases j - i
  {
    if i < j {
      SumsSkip(ss, r, i, j - 1);
      SumsPush(ss, r, j - 1);
    }
  }

  lemma BitOf(body: seq<bv8>, bits: seq<bool>, o: nat)
    requires BitmapIs(body, bits) && o < |bits| && o / 8 < |body|
    ensures body[o / 8] & Mask(o % 8) != 0 <==> bits[o]
  {
    assert Bit(body, o) <==> bits[o];
  }

  /** Only the last slab of a radix is without successor in its chain. */
  lemma ChainEndUnique(ss: seq<Slab>, r: nat, some: bool, i: nat, k: nat)
    requires k < |ss|
    requires if some then i < |ss| && ss[i].radix == r && NextSame(ss, r, i + 1) == |ss| else NextSame(ss, r, 0) == |ss|
    ensures ss[k].radix == r && NextSame(ss, r, k + 1) == |ss| <==> some && k == i
  {
    hide NextSame;
  }
}
