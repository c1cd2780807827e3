/**
 The slab allocator on its abstract state: slabs in creation order, each an object size and one bit
 per object-sized cell (set = in use). Header and bitmap occupy the first cells of their own slab.
 */
module SlabModel {
  import opened Options

  const SLAB_SIZE: nat := 1024
  const MIN_RADIX: nat := 1
  const MAX_RADIX: nat := 6
  const HEADER: nat := 8

  predicate Radix(r: nat) { MIN_RADIX <= r <= MAX_RADIX }

  /** 1 << k */
  function Shl1(k: nat): (p: nat)
    requires k <= 10
    ensures p > 0
  {
    if k == 0 then 1 else if k == 1 then 2 else if k == 2 then 4 else if k == 3 then 8
    else if k == 4 then 16 else if k == 5 then 32 else if k == 6 then 64 else if k == 7 then 128
    else if k == 8 then 256 else if k == 9 then 512 else 1024
  }

  /** Cells of a slab. */
  function Cells(r: nat): nat
    requires Radix(r)
  {
    Shl1(10 - r)
  }

  /** Length of the allocation bitmap in bytes. */
  function BitmapLen(r: nat): nat
    requires Radix(r)
  {
    (Cells(r) + 7) / 8
  }

  /** Cells taken by the header and the bitmap. */
  function Reserved(r: nat): nat
    requires Radix(r)
  {
    (HEADER + BitmapLen(r) + (Shl1(r) - 1)) / Shl1(r)
  }

  /** The constants leave room for objects, and the reserved cells end before the last bitmap byte. */
  lemma Constants(r: nat)
    requires Radix(r)
    ensures Cells(r) * Shl1(r) == SLAB_SIZE && BitmapLen(r) * 8 == Cells(r)
    ensures 0 < Reserved(r) <= 8 * (BitmapLen(r) - 1) && HEADER + BitmapLen(r) <= Reserved(r) * Shl1(r)
    ensures BitmapLen(r) <= 64
    ensures (Reserved(r) - 1) * Shl1(r) < HEADER + BitmapLen(r)
  {
    if r == 1 {} else if r == 2 {} else if r == 3 {} else if r == 4 {} else if r == 5 {} else {}
  }

  datatype Slab = Slab(radix: nat, bits: seq<bool>)

  /** A cell, by slab and position. */
  datatype Cell = Cell(slab: nat, pos: nat)

  ghost predicate SlabOk(s: Slab) {
    && Radix(s.radix)
    && |s.bits| == Cells(s.radix)
    && forall o :: 0 <= o < Reserved(s.radix) && o < |s.bits| ==> s.bits[o]
  }

  ghost predicate Ok(ss: seq<Slab>) {
    forall i :: 0 <= i < |ss| ==> SlabOk(ss[i])
  }

  // ---------------------------------------------------------------- one slab

  function ClearCount(bits: seq<bool>): nat {
    if bits == [] then 0 else ClearCount(bits[..|bits| - 1]) + if bits[|bits| - 1] then 0 else 1
  }

  /** Position of the first clear bit; |bits| if all are set. */
  function FirstClear(bits: seq<bool>): (o: nat)
    ensures o <= |bits| && (o < |bits| ==> !bits[o]) && forall k :: 0 <= k < o ==> bits[k]
  {
    if bits == [] || !bits[0] then 0 else 1 + FirstClear(bits[1..])
  }

  lemma {:induction false} ClearCountZero(bits: seq<bool>)
    ensures ClearCount(bits) == 0 <==> forall k :: 0 <= k < |bits| ==> bits[k]
  {
    if bits != [] {
      ClearCountZero(bits[..|bits| - 1]);
    }
  }

  lemma {:induction false} ClearCountUpdate(bits: seq<bool>, k: nat, b: bool)
    requires k < |bits| && bits[k] != b
    ensures ClearCount(bits[k := b]) == ClearCount(bits) + if b then -1 else 1
    decreases |bits|
  {
    var n := |bits| - 1;
    if k == n {
      assert bits[k := b][..n] == bits[..n];
    } else {
      ClearCountUpdate(bits[..n], k, b);
      assert bits[k := b][..n] == bits[..n][k := b];
    }
  }

  lemma {:induction false} ClearCountStep(n: nat, k: nat)
    requires k <= n
    ensures ClearCount(seq(n, o => o < k)) == n - k
  {
    var s := seq(n, o => o < k);
    if n > k {
      ClearCountStep(n - 1, k);
      assert s[..n - 1] == seq(n - 1, o => o < k);
    } else {
      ClearCountZero(s);
    }
  }

  /** A new slab: only header and bitmap are in use. */
  function Fresh(r: nat): Slab
    requires Radix(r)
  {
    Slab(r, seq(Cells(r), o => o < Reserved(r)))
  }

  lemma FreshOk(r: nat)
    requires Radix(r)
    ensures Fresh(r).radix == r && SlabOk(Fresh(r)) && ClearCount(Fresh(r).bits) == Cells(r) - Reserved(r) > 0
    ensures FirstClear(Fresh(r).bits) == Reserved(r) < Cells(r)
  {
    Constants(r);
    ClearCountStep(Cells(r), Reserved(r));
    assert Fresh(r).bits[Reserved(r)] == false;
  }

  // ---------------------------------------------------------------- allocation and release

  /** First slab of this radix, from `from` on, that has a free cell; |ss| if there is none. */
  function Pick(ss: seq<Slab>, r: nat, from: nat): (i: nat)
    requires from <= |ss|
    ensures from <= i <= |ss|
    ensures i < |ss| ==> ss[i].radix == r && ClearCount(ss[i].bits) > 0
    ensures forall k :: from <= k < i ==> ss[k].radix != r || ClearCount(ss[k].bits) == 0
    decreases |ss| - from
  {
    if from == |ss| || (ss[from].radix == r && ClearCount(ss[from].bits) > 0) then from else Pick(ss, r, from + 1)
  }

  function TakeFirst(s: Slab): Slab {
    var o := FirstClear(s.bits);
    if o < |s.bits| then s.(bits := s.bits[o := true]) else s
  }

  /** Slabs after allocating one object of the radix, in a region with room for `cap` slabs. */
  function AfterAlloc(ss: seq<Slab>, cap: nat, r: nat): seq<Slab>
    requires Radix(r)
  {
    var i := Pick(ss, r, 0);
    if i < |ss| then ss[i := TakeFirst(ss[i])]
    else if |ss| < cap then ss + [TakeFirst(Fresh(r))]
    else ss
  }

  /** The cell handed out. */
  function AllocResult(ss: seq<Slab>, cap: nat, r: nat): Option<Cell>
    requires Radix(r)
  {
    var i := Pick(ss, r, 0);
    if i < |ss| then Some(Cell(i, FirstClear(ss[i].bits)))
    else if |ss| < cap then Some(Cell(i, FirstClear(Fresh(r).bits)))
    else None
  }

  function AfterFree(ss: seq<Slab>, c: Cell): seq<Slab>
    requires c.slab < |ss| && c.pos < |ss[c.slab].bits|
  {
    ss[c.slab := ss[c.slab].(bits := ss[c.slab].bits[c.pos := false])]
  }

  /** `c` is an allocated object. */
  predicate IsLive(ss: seq<Slab>, c: Cell) {
    && c.slab < |ss|
    && Radix(ss[c.slab].radix)
    && Reserved(ss[c.slab].radix) <= c.pos < |ss[c.slab].bits|
    && ss[c.slab].bits[c.pos]
  }

  /** `c` is a cell for objects, allocated or not. */
  predicate IsObject(ss: seq<Slab>, c: Cell) {
    && c.slab < |ss|
    && Radix(ss[c.slab].radix)
    && Reserved(ss[c.slab].radix) <= c.pos < |ss[c.slab].bits|
  }

  /** Allocation hands out one object that was not live, and makes it the only difference. */
  lemma AllocLive(ss: seq<Slab>, cap: nat, r: nat)
    requires Ok(ss) && Radix(r)
    ensures Ok(AfterAlloc(ss, cap, r))
    ensures AllocResult(ss, cap, r).None? ==>
              && AfterAlloc(ss, cap, r) == ss && |ss| >= cap
              && forall i :: 0 <= i < |ss| && ss[i].radix == r ==> ClearCount(ss[i].bits) == 0
    ensures AllocResult(ss, cap, r).Some? ==>
              var c := AllocResult(ss, cap, r).value;
              && !IsLive(ss, c)
              && c.slab < |AfterAlloc(ss, cap, r)| && AfterAlloc(ss, cap, r)[c.slab].radix == r
              && forall d :: IsLive(AfterAlloc(ss, cap, r), d) <==> IsLive(ss, d) || d == c
  {
    hide Cells;
    hide Reserved;
    hide Shl1;
    hide ClearCount;
    var i := Pick(ss, r, 0);
    var t := AfterAlloc(ss, cap, r);
    if i < |ss| {
      assert SlabOk(ss[i]);
      ClearCountZero(ss[i].bits);
      assert SlabOk(t[i]);
    } else if |ss| < cap {
      FreshOk(r);
      var o := FirstClear(Fresh(r).bits);
      assert t[|ss|].bits == Fresh(r).bits[o := true];
    }
  }

  /** Releasing a live object makes it the only difference. */
  lemma FreeLive(ss: seq<Slab>, c: Cell)
    requires Ok(ss) && IsLive(ss, c)
    ensures Ok(AfterFree(ss, c))
    ensures forall d :: IsLive(AfterFree(ss, c), d) <==> IsLive(ss, d) && d != c
  {
    assert SlabOk(ss[c.slab]);
    assert SlabOk(AfterFree(ss, c)[c.slab]);
  }

  // ---------------------------------------------------------------- addresses

  /** Address of a cell in a region that starts at `start`. */
  function Address(ss: seq<Slab>, start: nat, c: Cell): nat
    requires c.slab < |ss| && Radix(ss[c.slab].radix)
  {
    start + SLAB_SIZE * c.slab + c.pos * Shl1(ss[c.slab].radix)
  }

  /** Clearing the low ten address bits finds the slab, shifting them right by the radix finds the cell. */
  lemma MaskingFindsCell(ss: seq<Slab>, start: nat, c: Cell)
    requires Ok(ss) && start % SLAB_SIZE == 0 && c.slab < |ss| && c.pos < |ss[c.slab].bits|
    ensures var a := Address(ss, start, c);
            && a - a % SLAB_SIZE == start + SLAB_SIZE * c.slab
            && a % SLAB_SIZE / Shl1(ss[c.slab].radix) == c.pos
  {
    assert SlabOk(ss[c.slab]);
    var r := ss[c.slab].radix;
    Constants(r);
    CellOffset(r, c.pos);
    var q := start / SLAB_SIZE + c.slab;
    assert Address(ss, start, c) == SLAB_SIZE * q + c.pos * Shl1(r);
  }

  lemma CellOffset(r: nat, o: nat)
    requires Radix(r) && o < Cells(r)
    ensures 0 <= o * Shl1(r) && (o + 1) * Shl1(r) <= SLAB_SIZE && o * Shl1(r) / Shl1(r) == o
  {
    if r == 1 {} else if r == 2 {} else if r == 3 {} else if r == 4 {} else if r == 5 {} else {}
  }

  /** Two live objects never share a byte, and none reaches into a header, a bitmap or another slab. */
  lemma LiveDisjoint(ss: seq<Slab>, start: nat, c: Cell, d: Cell)
    requires Ok(ss) && IsLive(ss, c) && IsLive(ss, d) && c != d
    ensures var a, b := Address(ss, start, c), Address(ss, start, d);
            var n, m := Shl1(ss[c.slab].radix), Shl1(ss[d.slab].radix);
            && (a + n <= b || b + m <= a)
            && start + SLAB_SIZE * c.slab + HEADER + BitmapLen(ss[c.slab].radix) <= a
            && a + n <= start + SLAB_SIZE * (c.slab + 1)
  {
    hide Shl1, Cells, Reserved, BitmapLen;
    LivePlace(ss, start, c);
    LivePlace(ss, start, d);
    if c.slab == d.slab {
      StepsApart(c.pos, d.pos, Shl1(ss[c.slab].radix));
      StepsApart(d.pos, c.pos, Shl1(ss[c.slab].radix));
    }
  }

  lemma StepsApart(i: nat, j: nat, p: nat)
    ensures i < j ==> i * p + p <= j * p
  {
    if i < j {
      Spread(i, j - i - 1, p);
    }
  }

  lemma Spread(i: nat, k: nat, p: nat)
    ensures (i + 1 + k) * p == i * p + p + k * p && k * p >= 0
    ensures (i + k) * p == i * p + k * p
  {
  }

  lemma LivePlace(ss: seq<Slab>, start: nat, c: Cell)
    requires Ok(ss) && IsLive(ss, c)
    ensures var a, r := Address(ss, start, c), ss[c.slab].radix;
            && start + SLAB_SIZE * c.slab + HEADER + BitmapLen(r) <= a
            && a + Shl1(r) <= start + SLAB_SIZE * (c.slab + 1)
  {
    hide Shl1, Cells, Reserved, BitmapLen;
    var r := ss[c.slab].radix;
    assert SlabOk(ss[c.slab]);
    Constants(r);
    CellOffset(r, c.pos);
    StepsUp(Reserved(r), c.pos, Shl1(r));
  }

  lemma StepsUp(i: nat, j: nat, p: nat)
    requires i <= j
    ensures i * p <= j * p && (j + 1) * p == j * p + p
  {
    Spread(i, j - i, p);
    Spread(j, 0, p);
  }

  /** Where byte `k` of an object stands behind the slab header: behind the bitmap and inside the slab. */
  function ObjectByte(ss: seq<Slab>, c: Cell, k: nat): (i: nat)
    requires Ok(ss) && IsLive(ss, c) && k < Shl1(ss[c.slab].radix)
    ensures i < SLAB_SIZE - HEADER && |ss[c.slab].bits| <= 8 * i
  {
    ObjectBytes(ss, c, k);
    c.pos * Shl1(ss[c.slab].radix) + k - HEADER
  }

  lemma ObjectBytes(ss: seq<Slab>, c: Cell, k: nat)
    requires Ok(ss) && IsLive(ss, c) && k < Shl1(ss[c.slab].radix)
    ensures var i := c.pos * Shl1(ss[c.slab].radix) + k - HEADER;
            0 <= i < SLAB_SIZE - HEADER && |ss[c.slab].bits| <= 8 * i
  {
    hide Shl1, Cells, Reserved, BitmapLen;
    assert SlabOk(ss[c.slab]);
    Constants(ss[c.slab].radix);
    LivePlace(ss, 0, c);
  }

  // ---------------------------------------------------------------- statistics

  /** Usable cells over all slabs of a radix. */
  function Total(ss: seq<Slab>, r: nat): nat
    requires Radix(r)
  {
    if ss == [] then 0
    else Total(ss[..|ss| - 1], r) + if ss[|ss| - 1].radix == r then
           (Constants(r); FreshOk(r); Cells(r) - Reserved(r)) else 0
  }

  function FreeCells(ss: seq<Slab>, r: nat): nat {
    if ss == [] then 0
    else FreeCells(ss[..|ss| - 1], r) + if ss[|ss| - 1].radix == r then ClearCount(ss[|ss| - 1].bits) else 0
  }

  /** The allocated objects of a radix. */
  ghost function LiveOf(ss: seq<Slab>, r: nat): set<Cell> {
    set i, o | 0 <= i < |ss| && ss[i].radix == r && 0 <= o < |ss[i].bits| && IsLive(ss, Cell(i, o)) :: Cell(i, o)
  }

  /** Allocated objects among the first `n` cells of slab `i`. */
  ghost function LiveIn(ss: seq<Slab>, i: nat, n: nat): set<Cell>
    requires i < |ss| && n <= |ss[i].bits|
  {
    set o | 0 <= o < n && IsLive(ss, Cell(i, o)) :: Cell(i, o)
  }

  /** The capacity of one slab: of objects of 2, 4, 8, 16, 32 and 64 bytes. */
  lemma Capacity(r: nat)
    requires Radix(r)
    ensures Cells(r) - Reserved(r) == [476, 246, 125, 63, 31, 15][r - 1]
    ensures Total([Fresh(r)], r) == FreeCells([Fresh(r)], r) == Cells(r) - Reserved(r)
  {
    FreshOk(r);
    Constants(r);
    assert [Fresh(r)][..0] == [];
    if r == 1 {} else if r == 2 {} else if r == 3 {} else if r == 4 {} else if r == 5 {} else {}
  }

  lemma ClearCountPush(bits: seq<bool>, n: nat)
    requires 0 < n <= |bits|
    ensures ClearCount(bits[..n]) == ClearCount(bits[..n - 1]) + if bits[n - 1] then 0 else 1
  {
    assert bits[..n][..n - 1] == bits[..n - 1];
  }

  /** Allocated objects and clear bits add up, cell by cell. */
  lemma {:induction false} LiveInCount(ss: seq<Slab>, i: nat, n: nat)
    requires Ok(ss) && i < |ss| && n <= |ss[i].bits|
    ensures |LiveIn(ss, i, n)| + ClearCount(ss[i].bits[..n]) ==
            if n <= Reserved(ss[i].radix) then 0 else n - Reserved(ss[i].radix)
    decreases n
  {
    hide Cells;
    hide Reserved;
    hide Shl1;
    assert SlabOk(ss[i]);
    if n == 0 {
      assert LiveIn(ss, i, n) == {};
    } else {
      hide ClearCount;
      hide LiveIn;
      LiveInCount(ss, i, n - 1);
      ClearCountPush(ss[i].bits, n);
      LiveInPush(ss, i, n);
    }
  }

  lemma LiveInPush(ss: seq<Slab>, i: nat, n: nat)
    requires i < |ss| && 0 < n <= |ss[i].bits|
    ensures |LiveIn(ss, i, n)| == |LiveIn(ss, i, n - 1)| + if IsLive(ss, Cell(i, n - 1)) then 1 else 0
  {
    hide IsLive;
    var c := Cell(i, n - 1);
    assert LiveIn(ss, i, n) == LiveIn(ss, i, n - 1) + if IsLive(ss, c) then {c} else {};
  }

  /** The last slab's share of the allocated objects. */
  lemma LiveOfLast(ss: seq<Slab>, r: nat)
    requires Ok(ss) && ss != []
    ensures var n := |ss| - 1;
            var last := if ss[n].radix == r then LiveIn(ss, n, |ss[n].bits|) else {};
            LiveOf(ss, r) == LiveOf(ss[..n], r) + last && LiveOf(ss[..n], r) !! last
  {
    hide Cells;
    hide Reserved;
    hide Shl1;
    var n := |ss| - 1;
    var pre := ss[..n];
    assert SlabOk(ss[n]);
    assert forall i, o :: 0 <= i < n ==> (IsLive(pre, Cell(i, o)) <==> IsLive(ss, Cell(i, o)));
  }

  /** slab_get_stats: total minus free is the number of allocated objects of the radix. */
  lemma {:induction false} StatsCountLive(ss: seq<Slab>, r: nat)
    requires Ok(ss) && Radix(r)
    ensures Total(ss, r) - FreeCells(ss, r) == |LiveOf(ss, r)|
    decreases |ss|
  {
    hide Cells;
    hide Reserved;
    hide Shl1;
    hide ClearCount;
    if ss == [] {
      assert LiveOf(ss, r) == {};
    } else {
      var n := |ss| - 1;
      StatsCountLive(ss[..n], r);
      assert SlabOk(ss[n]);
      LiveOfLast(ss, r);
      if ss[n].radix == r {
        LiveInCount(ss, n, |ss[n].bits|);
        FreshOk(r);
        assert ss[n].bits[..|ss[n].bits|] == ss[n].bits;
      }
    }
  }

  // ---------------------------------------------------------------- runs

  datatype Request = Alloc(r: nat) | Free(c: Cell)

  /** Allocation asks for a valid radix; only live objects are freed. */
  predicate Admissible(ss: seq<Slab>, q: Request) {
    match q
    case Alloc(r) => Radix(r)
    case Free(c) => IsLive(ss, c)
  }

  function Step(ss: seq<Slab>, cap: nat, q: Request): seq<Slab>
    requires Admissible(ss, q)
  {
    match q
    case Alloc(r) => AfterAlloc(ss, cap, r)
    case Free(c) => AfterFree(ss, c)
  }

  predicate AdmissibleRun(ss: seq<Slab>, cap: nat, qs: seq<Request>)
    decreases |qs|
  {
    qs == [] || (Admissible(ss, qs[0]) && AdmissibleRun(Step(ss, cap, qs[0]), cap, qs[1..]))
  }

  function Run(ss: seq<Slab>, cap: nat, qs: seq<Request>): seq<Slab>
    requires AdmissibleRun(ss, cap, qs)
    decreases |qs|
  {
    if qs == [] then ss else Run(Step(ss, cap, qs[0]), cap, qs[1..])
  }

  /** The clients' ledger: objects handed out and not yet given back. */
  ghost function Ledger(ss: seq<Slab>, cap: nat, qs: seq<Request>, held: set<Cell>): set<Cell>
    requires AdmissibleRun(ss, cap, qs)
    decreases |qs|
  {
    if qs == [] then held else
      var now := match qs[0]
                 case Alloc(r) => (match AllocResult(ss, cap, r) case None => held case Some(c) => held + {c})
                 case Free(c) => held - {c};
      Ledger(Step(ss, cap, qs[0]), cap, qs[1..], now)
  }

  /** Over every run, exactly the objects in the clients' ledger are marked in use outside the reserved cells. */
  lemma {:induction false} RunMatchesLedger(ss: seq<Slab>, cap: nat, qs: seq<Request>, held: set<Cell>)
    requires Ok(ss) && AdmissibleRun(ss, cap, qs) && forall c :: IsLive(ss, c) <==> c in held
    ensures Ok(Run(ss, cap, qs))
    ensures forall c :: IsLive(Run(ss, cap, qs), c) <==> c in Ledger(ss, cap, qs, held)
    decreases |qs|
  {
    if qs != [] {
      var now := match qs[0]
                 case Alloc(r) => (match AllocResult(ss, cap, r) case None => held case Some(c) => held + {c})
                 case Free(c) => held - {c};
      match qs[0] {
        case Alloc(r) => AllocLive(ss, cap, r);
        case Free(c) => FreeLive(ss, c);
      }
      RunMatchesLedger(Step(ss, cap, qs[0]), cap, qs[1..], now);
    }
  }

  /** Over every run on an empty region, objects in client hands are pairwise disjoint and clear of all headers. */
  lemma SlabSafety(cap: nat, qs: seq<Request>, start: nat, c: Cell, d: Cell)
    requires AdmissibleRun([], cap, qs)
    requires c in Ledger([], cap, qs, {}) && d in Ledger([], cap, qs, {}) && c != d
    ensures var ss := Run([], cap, qs);
            && IsLive(ss, c) && IsLive(ss, d)
            && var a, b := Address(ss, start, c), Address(ss, start, d);
            var n, m := Shl1(ss[c.slab].radix), Shl1(ss[d.slab].radix);
            && (a + n <= b || b + m <= a)
            && start + SLAB_SIZE * c.slab + HEADER + BitmapLen(ss[c.slab].radix) <= a
  {
    hide Shl1;
    hide BitmapLen;
    RunMatchesLedger([], cap, qs, {});
    LiveDisjoint(Run([], cap, qs), start, c, d);
  }
}
