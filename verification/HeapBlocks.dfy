/**
 The heap allocator on its abstract state: the sequence of blocks that the in-line headers describe.
 Positions are byte offsets from the start of the heap; offset 0 plays the part of a NULL pointer,
 since no payload can start there.
 */
module HeapBlocks {
  import opened Bytes

  const HEADER: nat := 8
  const MAX_REQUEST: nat := TWO32 - 4

  /** One header and the payload behind it. */
  datatype Block = Block(at: nat, size: nat, used: bool) {
    function Payload(): nat { at + HEADER }
    function End(): nat { at + HEADER + size }
  }

  // ---------------------------------------------------------------- the invariant

  /** The blocks cover bytes [0, len) without gap or overlap, in address order. */
  ghost predicate Tiled(bs: seq<Block>, len: nat) {
    && |bs| > 0
    && bs[0].at == 0
    && (forall i {:trigger bs[i].End()} :: 0 <= i < |bs| - 1 ==> bs[i].End() == bs[i + 1].at)
    && bs[|bs| - 1].End() == len
  }

  /** Tiled, and closed by the in-use zero-size marker that stops every scan. */
  ghost predicate Sound(bs: seq<Block>, len: nat) {
    && Tiled(bs, len)
    && bs[|bs| - 1].size == 0
    && bs[|bs| - 1].used
  }

  /** Sound; only the marker has size zero; every header before it is aligned with the heap's start. */
  ghost predicate WellFormed(bs: seq<Block>, len: nat) {
    && Sound(bs, len)
    && (forall i :: 0 <= i < |bs| - 1 ==> bs[i].size > 0)
    && (forall i :: 0 <= i < |bs| - 1 ==> bs[i].at % 4 == 0)
  }

  /** Blocks appear in address order and do not overlap. */
  lemma {:induction false} Ordered(bs: seq<Block>, len: nat, i: nat, j: nat)
    requires Tiled(bs, len) && i < j < |bs|
    ensures bs[i].End() <= bs[j].at
    decreases j - i
  {
    if i + 1 < j {
      Ordered(bs, len, i + 1, j);
    }
    assert bs[i].End() == bs[i + 1].at;
  }

  /** Every block ends inside the heap. */
  lemma InHeap(bs: seq<Block>, len: nat, i: nat)
    requires Tiled(bs, len) && i < |bs|
    ensures bs[i].End() <= len
  {
    if i < |bs| - 1 {
      Ordered(bs, len, i, |bs| - 1);
    }
  }

  /** `p` is the payload offset of an allocated block. */
  predicate Live(bs: seq<Block>, p: nat) {
    exists i :: 0 <= i < |bs| && bs[i].used && bs[i].size > 0 && bs[i].Payload() == p
  }

  /** Index of the block whose payload starts at `p`; |bs| if there is none. */
  function IndexOf(bs: seq<Block>, p: nat): (i: nat)
    ensures i <= |bs|
    ensures i < |bs| ==> bs[i].Payload() == p
    ensures forall j :: 0 <= j < i ==> bs[j].Payload() != p
  {
    if bs == [] then 0
    else if bs[0].Payload() == p then 0
    else
      var k := IndexOf(bs[1..], p);
      assert forall j :: 1 <= j < k + 1 ==> bs[j] == bs[1..][j - 1];
      k + 1
  }

  /** A payload offset identifies its block. */
  lemma IndexOfUnique(bs: seq<Block>, len: nat, i: nat)
    requires Tiled(bs, len) && i < |bs|
    ensures IndexOf(bs, bs[i].Payload()) == i
  {
    var k := IndexOf(bs, bs[i].Payload());
    if k < i {
      Ordered(bs, len, k, i);
    }
  }

  // ---------------------------------------------------------------- allocation

  /** A request rounded up to a multiple of four, in 32-bit arithmetic. */
  function Rounded(n: u32): (r: u32)
    ensures r % 4 == 0
    ensures n <= MAX_REQUEST ==> n <= r < n + 4
    ensures n > MAX_REQUEST ==> r == 0
  {
    (n + 3) % TWO32 / 4 * 4
  }

  /** The first free block from `from` on that holds `n` bytes, seen by a scan that stops at size zero. */
  function FirstFit(bs: seq<Block>, n: nat, from: nat): (i: nat)
    requires from <= |bs|
    ensures from <= i <= |bs|
    ensures i < |bs| ==> !bs[i].used && n <= bs[i].size && bs[i].size > 0
    decreases |bs| - from
  {
    if from == |bs| || bs[from].size == 0 then |bs|
    else if !bs[from].used && n <= bs[from].size then from
    else FirstFit(bs, n, from + 1)
  }

  /** Allocate `n` bytes from free block `i`, splitting it when the rest can hold another block. */
  function Carve(bs: seq<Block>, i: nat, n: nat): seq<Block>
    requires i < |bs| && n <= bs[i].size
  {
    var b := bs[i];
    if b.size - n > HEADER + 3 then
      bs[..i] + [Block(b.at, n, true), Block(b.at + HEADER + n, b.size - (n + HEADER), false)] + bs[i + 1..]
    else
      bs[i := b.(used := true)]
  }

  function AfterMalloc(bs: seq<Block>, n: u32): seq<Block> {
    if n == 0 then bs else
      var i := FirstFit(bs, Rounded(n), 0);
      if i == |bs| then bs else Carve(bs, i, Rounded(n))
  }

  /** Payload offset handed out by malloc, or 0. */
  function MallocResult(bs: seq<Block>, n: u32): nat {
    if n == 0 then 0 else
      var i := FirstFit(bs, Rounded(n), 0);
      if i == |bs| then 0 else bs[i].Payload()
  }

  /** In a well-formed heap the scan sees every block: it misses only if no free block is big enough. */
  lemma {:induction false} FirstFitComplete(bs: seq<Block>, len: nat, n: nat, from: nat)
    requires WellFormed(bs, len) && from <= |bs|
    ensures FirstFit(bs, n, from) == |bs| <==>
            forall j :: from <= j < |bs| && !bs[j].used ==> bs[j].size < n
    ensures forall j :: from <= j < FirstFit(bs, n, from) && !bs[j].used ==> bs[j].size < n
    decreases |bs| - from
  {
    if from == |bs| {
    } else if bs[from].size == 0 {
      assert from == |bs| - 1;
    } else if !bs[from].used && n <= bs[from].size {
    } else {
      FirstFitComplete(bs, len, n, from + 1);
    }
  }

  /** Carving keeps the tiling, whatever the size taken. */
  lemma CarveSound(bs: seq<Block>, len: nat, i: nat, n: nat)
    requires Sound(bs, len) && i < |bs| && !bs[i].used && n <= bs[i].size
    ensures Sound(Carve(bs, i, n), len)
  {
    var b := bs[i];
    var r := Carve(bs, i, n);
    if b.size - n > HEADER + 3 {
      forall j | 0 <= j < |r| - 1
        ensures r[j].End() == r[j + 1].at
      {
        if j < i {
          assert bs[j].End() == bs[j + 1].at;
        } else if j > i {
          assert bs[j - 1].End() == bs[j].at;
        }
      }
    } else {
      forall j | 0 <= j < |r| - 1
        ensures r[j].End() == r[j + 1].at
      {
        assert bs[j].End() == bs[j + 1].at;
      }
    }
  }

  /** The one family of requests that breaks the heap: the rounded size wraps to zero and is split off. */
  predicate SplitsOffNothing(bs: seq<Block>, n: u32) {
    && n > MAX_REQUEST
    && var i := FirstFit(bs, 0, 0);
       i < |bs| && bs[i].size > HEADER + 3
  }

  /** A malloc that fails changes nothing. */
  lemma MallocFailure(bs: seq<Block>, n: u32)
    ensures MallocResult(bs, n) == 0 ==> AfterMalloc(bs, n) == bs
  {
  }

  /** Where each block stands after carving block `i`. */
  lemma CarveShape(bs: seq<Block>, i: nat, n: nat)
    requires i < |bs| && n <= bs[i].size
    ensures var r := Carve(bs, i, n);
            var split := bs[i].size - n > HEADER + 3;
            && |r| == (if split then |bs| + 1 else |bs|)
            && (forall j :: 0 <= j < i ==> r[j] == bs[j])
            && r[i] == Block(bs[i].at, if split then n else bs[i].size, true)
            && (split ==> r[i + 1] == Block(bs[i].at + HEADER + n, bs[i].size - n - HEADER, false))
            && (forall j :: i < j < |bs| ==> r[if split then j + 1 else j] == bs[j])
  {
  }

  /** Index in `bs` of the block at index `j` behind or before the carved block `i`. */
  function CarvedFrom(bs: seq<Block>, i: nat, n: nat, j: nat): (o: int)
    requires i < |bs|
  {
    if j > i && bs[i].size - n > HEADER + 3 then j - 1 else j
  }

  lemma CarvedAt(bs: seq<Block>, i: nat, n: nat, j: nat)
    requires i < |bs| && n <= bs[i].size && j < |Carve(bs, i, n)| && j != i
    requires |Carve(bs, i, n)| > |bs| ==> j != i + 1
    ensures var o := CarvedFrom(bs, i, n, j); 0 <= o < |bs| && o != i && Carve(bs, i, n)[j] == bs[o]
  {
  }

  lemma CarveKeepsWellFormed(bs: seq<Block>, len: nat, i: nat, n: nat)
    requires WellFormed(bs, len) && i < |bs| && !bs[i].used && n <= bs[i].size && n % 4 == 0
    ensures WellFormed(Carve(bs, i, n), len) <==> n > 0 || bs[i].size <= HEADER + 3
  {
    var r := Carve(bs, i, n);
    CarveSound(bs, len, i, n);
    CarveShape(bs, i, n);
    var split := bs[i].size - n > HEADER + 3;
    if n > 0 || !split {
      forall j | 0 <= j < |r| - 1
        ensures r[j].size > 0 && r[j].at % 4 == 0
      {
        if j <= i {
          assert bs[j].at % 4 == 0;
        } else if split && j == i + 1 {
          assert r[j].at == bs[i].at + (8 + n);
        } else {
          var k := if split then j - 1 else j;
          assert r[j] == bs[k];
        }
      }
    } else {
      assert r[i].size == 0 && i < |r| - 1;
    }
  }

  /** malloc keeps the invariant exactly when the request does not split off a zero-size block. */
  lemma MallocKeepsWellFormed(bs: seq<Block>, len: nat, n: u32)
    requires WellFormed(bs, len)
    ensures WellFormed(AfterMalloc(bs, n), len) <==> !SplitsOffNothing(bs, n)
  {
    var m := Rounded(n);
    var i := FirstFit(bs, m, 0);
    if n != 0 && i < |bs| {
      CarveKeepsWellFormed(bs, len, i, m);
    }
  }

  /** malloc returns NULL exactly when no free block is as large as the rounded request. */
  lemma MallocFailsIffNoFit(bs: seq<Block>, len: nat, n: u32)
    requires WellFormed(bs, len) && n > 0
    ensures MallocResult(bs, n) == 0 <==> forall j :: 0 <= j < |bs| && !bs[j].used ==> bs[j].size < Rounded(n)
  {
    FirstFitComplete(bs, len, Rounded(n), 0);
  }

  /** Blocks `i` and `j` share no byte, header included. */
  predicate Disjoint(a: Block, b: Block) { a.End() <= b.at || b.End() <= a.at }

  /** What a successful malloc hands out, and that it disturbs no other block. */
  lemma MallocPlacement(bs: seq<Block>, len: nat, n: u32)
    requires Sound(bs, len) && MallocResult(bs, n) != 0
    ensures var r := AfterMalloc(bs, n);
            var i := IndexOf(bs, MallocResult(bs, n));
            && i < |bs| && !bs[i].used && i < |r|
            && r[i].used && r[i].at == bs[i].at && r[i].Payload() == MallocResult(bs, n)
            && Rounded(n) <= r[i].size && r[i].End() <= bs[i].End()
            && (forall j :: 0 <= j < |r| && j != i ==> Disjoint(r[i], r[j]))
            && (forall j :: 0 <= j < |bs| && bs[j].used ==> bs[j] in r)
            && (forall j :: 0 <= j < |r| && r[j].used && j != i ==> r[j] in bs)
  {
    var m := Rounded(n);
    var i := FirstFit(bs, m, 0);
    IndexOfUnique(bs, len, i);
    CarvePlacement(bs, len, i, m);
  }

  lemma CarvePlacement(bs: seq<Block>, len: nat, i: nat, n: nat)
    requires Sound(bs, len) && i < |bs| && !bs[i].used && n <= bs[i].size
    ensures var r := Carve(bs, i, n);
            && i < |r| && r[i].used && r[i].at == bs[i].at
            && n <= r[i].size && r[i].End() <= bs[i].End()
            && (forall j :: 0 <= j < |r| && j != i ==> Disjoint(r[i], r[j]))
            && (forall j :: 0 <= j < |bs| && bs[j].used ==> bs[j] in r)
            && (forall j :: 0 <= j < |r| && r[j].used && j != i ==> r[j] in bs)
  {
    CarveSound(bs, len, i, n);
    CarveShape(bs, i, n);
    var r := Carve(bs, i, n);
    var split := bs[i].size - n > HEADER + 3;
    forall j | 0 <= j < |r| && j != i
      ensures Disjoint(r[i], r[j])
      ensures r[j].used ==> r[j] in bs
    {
      if j < i { Ordered(r, len, j, i); } else { Ordered(r, len, i, j); }
      if j > i && !(split && j == i + 1) {
        assert r[j] == bs[if split then j - 1 else j];
      }
    }
    forall j | 0 <= j < |bs| && bs[j].used
      ensures bs[j] in r
    {
      assert bs[j] == r[if split && j > i then j + 1 else j];
    }
  }

  // ---------------------------------------------------------------- release

  /** One past the run of free blocks that starts at index `j`. */
  function RunEnd(bs: seq<Block>, j: nat): (k: nat)
    requires j <= |bs|
    ensures j <= k <= |bs|
    ensures forall i :: j <= i < k ==> !bs[i].used
    ensures k < |bs| ==> bs[k].used
    decreases |bs| - j
  {
    if j == |bs| || bs[j].used then j else RunEnd(bs, j + 1)
  }

  /** Free block `i` and absorb the free blocks directly behind it. */
  function Released(bs: seq<Block>, i: nat): seq<Block>
    requires i < |bs|
  {
    var k := RunEnd(bs, i + 1);
    bs[..i] + [Block(bs[i].at, Span(bs, i, k), false)] + bs[k..]
  }

  /** Payload size of block `i` grown over blocks i+1 .. k-1 and their headers. */
  function Span(bs: seq<Block>, i: nat, k: nat): nat
    requires i < k <= |bs|
  {
    if k == i + 1 then bs[i].size else Span(bs, i, k - 1) + bs[k - 1].size + HEADER
  }

  lemma {:induction false} SpanEnds(bs: seq<Block>, len: nat, i: nat, k: nat)
    requires Tiled(bs, len) && i < k <= |bs|
    ensures bs[i].at + HEADER + Span(bs, i, k) == bs[k - 1].End()
    decreases k
  {
    if k > i + 1 {
      SpanEnds(bs, len, i, k - 1);
      assert bs[k - 2].End() == bs[k - 1].at;
    }
  }

  function AfterFree(bs: seq<Block>, p: nat): seq<Block> {
    if p == 0 then bs else
      var i := IndexOf(bs, p);
      if i == |bs| || !bs[i].used then bs else Released(bs, i)
  }

  lemma ReleaseSound(bs: seq<Block>, len: nat, i: nat)
    requires Sound(bs, len) && i < |bs| - 1
    ensures RunEnd(bs, i + 1) < |bs|
    ensures Sound(Released(bs, i), len)
  {
    var k := RunEnd(bs, i + 1);
    SpanEnds(bs, len, i, k);
    var r := Released(bs, i);
    forall j | 0 <= j < |r| - 1
      ensures r[j].End() == r[j + 1].at
    {
      if j < i {
        assert bs[j].End() == bs[j + 1].at;
      } else if j == i {
        assert bs[k - 1].End() == bs[k].at;
        assert r[i + 1] == bs[k];
      } else {
        assert r[j] == bs[k + (j - i - 1)] && r[j + 1] == bs[k + (j - i)];
        assert bs[k + (j - i - 1)].End() == bs[k + (j - i)].at;
      }
    }
  }

  lemma {:induction false} SpanGrows(bs: seq<Block>, i: nat, k: nat)
    requires i < k <= |bs|
    ensures Span(bs, i, k) >= bs[i].size
    decreases k
  {
    if k > i + 1 { SpanGrows(bs, i, k - 1); }
  }

  /** Where each block stands after releasing block `i`. */
  lemma ReleaseShape(bs: seq<Block>, i: nat)
    requires i < |bs|
    ensures var r := Released(bs, i);
            var k := RunEnd(bs, i + 1);
            && |r| == |bs| - (k - i - 1)
            && (forall j :: 0 <= j < i ==> r[j] == bs[j])
            && r[i] == Block(bs[i].at, Span(bs, i, k), false) && r[i].size >= bs[i].size
            && (forall j :: i < j < |r| ==> r[j] == bs[j + (k - i - 1)])
  {
    SpanGrows(bs, i, RunEnd(bs, i + 1));
  }

  /** Index in `bs` of the block at index `j` of the list with block `i` released. */
  function ReleasedFrom(bs: seq<Block>, i: nat, j: nat): (o: int)
    requires i < |bs|
  {
    if j <= i then j else j + (RunEnd(bs, i + 1) - i - 1)
  }

  lemma ReleasedAt(bs: seq<Block>, i: nat, j: nat)
    requires i < |bs| && j < |Released(bs, i)| && j != i
    ensures var o := ReleasedFrom(bs, i, j); 0 <= o < |bs| && o != i && Released(bs, i)[j] == bs[o]
  {
  }

  /** Every allocated block but `i` stands in the list with block `i` released. */
  lemma ReleasedKeeps(bs: seq<Block>, i: nat, o: nat)
    requires i < |bs| && o < |bs| && o != i && bs[o].used
    ensures bs[o] in Released(bs, i)
  {
    var k := RunEnd(bs, i + 1);
    var j := if o < i then o else o - (k - i - 1);
    assert Released(bs, i)[j] == bs[o];
  }

  /** No allocated block of the released list has the payload of block `i`. */
  lemma ReleasedOthers(bs: seq<Block>, len: nat, i: nat, j: nat)
    requires Sound(bs, len) && i < |bs| - 1 && j < |Released(bs, i)| && Released(bs, i)[j].used
    ensures Released(bs, i)[j] in bs && Released(bs, i)[j].Payload() != bs[i].Payload()
  {
    hide Tiled;
    var r := Released(bs, i);
    assert j != i;
    ReleaseSound(bs, len, i);
    ReleasedAt(bs, i, j);
    assert r[i].at == bs[i].at;
    if j < i { Ordered(r, len, j, i); } else { Ordered(r, len, i, j); }
  }

  lemma ReleaseKeepsWellFormed(bs: seq<Block>, len: nat, i: nat)
    requires WellFormed(bs, len) && i < |bs| - 1
    ensures WellFormed(Released(bs, i), len)
  {
    ReleaseSound(bs, len, i);
    ReleaseShape(bs, i);
    var r, k := Released(bs, i), RunEnd(bs, i + 1);
    forall j | 0 <= j < |r| - 1
      ensures r[j].size > 0 && r[j].at % 4 == 0
    {
      var o := if j <= i then j else j + (k - i - 1);
      assert r[j].at == bs[o].at && r[j].size >= bs[o].size;
    }
  }

  /** Releasing block `i` makes it free and leaves every other allocated block as it is. */
  lemma ReleaseKeepsOthers(bs: seq<Block>, len: nat, i: nat)
    requires Sound(bs, len) && i < |bs| - 1
    ensures !Live(Released(bs, i), bs[i].Payload())
    ensures forall b :: b in bs && b.used && b.Payload() != bs[i].Payload() ==> b in Released(bs, i)
    ensures forall b :: b in Released(bs, i) && b.used ==> b in bs
  {
    hide Released;
    hide RunEnd;
    hide Sound;
    var r := Released(bs, i);
    forall b | b in bs && b.used && b.Payload() != bs[i].Payload()
      ensures b in r
    {
      var o :| 0 <= o < |bs| && bs[o] == b;
      ReleasedKeeps(bs, i, o);
    }
    forall b | b in r && b.used
      ensures b in bs && b.Payload() != bs[i].Payload()
    {
      var j :| 0 <= j < |r| && r[j] == b;
      ReleasedOthers(bs, len, i, j);
    }
  }

  /** free of a live pointer or NULL keeps the invariant, and every other live block stays as it is. */
  lemma FreeKeepsWellFormed(bs: seq<Block>, len: nat, p: nat)
    requires WellFormed(bs, len) && (p == 0 || Live(bs, p))
    ensures WellFormed(AfterFree(bs, p), len)
    ensures !Live(AfterFree(bs, p), p)
    ensures forall b :: b in bs && b.used && b.Payload() != p ==> b in AfterFree(bs, p)
    ensures forall b :: b in AfterFree(bs, p) && b.used ==> b in bs
  {
    if p != 0 {
      var i :| 0 <= i < |bs| && bs[i].used && bs[i].size > 0 && bs[i].Payload() == p;
      IndexOfUnique(bs, len, i);
      ReleaseKeepsWellFormed(bs, len, i);
      ReleaseKeepsOthers(bs, len, i);
    }
  }

  // ---------------------------------------------------------------- accounting

  function FreeBytes(bs: seq<Block>): nat {
    if bs == [] then 0
    else FreeBytes(bs[..|bs| - 1]) + if bs[|bs| - 1].used then 0 else bs[|bs| - 1].size
  }

  function UsedBytes(bs: seq<Block>): nat {
    if bs == [] then 0
    else UsedBytes(bs[..|bs| - 1]) + if bs[|bs| - 1].used then bs[|bs| - 1].size else 0
  }

  /** Free bytes, used bytes and headers account for every byte before block `k`. */
  lemma {:induction false} PrefixConserved(bs: seq<Block>, len: nat, k: nat)
    requires Tiled(bs, len) && 0 < k <= |bs|
    ensures FreeBytes(bs[..k]) + UsedBytes(bs[..k]) + HEADER * k == bs[k - 1].End()
    decreases k
  {
    var pre := bs[..k];
    assert pre[..k - 1] == bs[..k - 1];
    if k > 1 {
      PrefixConserved(bs, len, k - 1);
      assert bs[k - 2].End() == bs[k - 1].at;
    }
  }

  lemma Conservation(bs: seq<Block>, len: nat)
    requires Tiled(bs, len)
    ensures FreeBytes(bs) + UsedBytes(bs) + HEADER * |bs| == len
  {
    assert bs[..|bs|] == bs;
    PrefixConserved(bs, len, |bs|);
  }

  lemma {:induction false} UsedSplit(a: seq<Block>, b: seq<Block>)
    ensures UsedBytes(a + b) == UsedBytes(a) + UsedBytes(b)
    decreases |b|
  {
    if b == [] {
      assert a + b == a;
    } else {
      assert (a + b)[..|a + b| - 1] == a + b[..|b| - 1];
      UsedSplit(a, b[..|b| - 1]);
    }
  }

  lemma {:induction false} UsedNone(bs: seq<Block>)
    requires forall i :: 0 <= i < |bs| ==> !bs[i].used
    ensures UsedBytes(bs) == 0
  {
    if bs != [] { UsedNone(bs[..|bs| - 1]); }
  }

  lemma UsedOne(b: Block)
    ensures UsedBytes([b]) == if b.used then b.size else 0
  {
    assert [b][..0] == [];
  }

  /** Used bytes around one block. */
  lemma UsedAround(bs: seq<Block>, i: nat)
    requires i < |bs|
    ensures UsedBytes(bs) == UsedBytes(bs[..i]) + (if bs[i].used then bs[i].size else 0) + UsedBytes(bs[i + 1..])
  {
    assert bs == bs[..i] + ([bs[i]] + bs[i + 1..]);
    UsedSplit(bs[..i], [bs[i]] + bs[i + 1..]);
    UsedSplit([bs[i]], bs[i + 1..]);
    UsedOne(bs[i]);
  }

  /** free gives back exactly the bytes of the block. */
  lemma UsedAfterRelease(bs: seq<Block>, i: nat)
    requires i < |bs| && bs[i].used
    ensures UsedBytes(Released(bs, i)) == UsedBytes(bs) - bs[i].size
  {
    hide Released, UsedBytes, Span;
    var k, r := RunEnd(bs, i + 1), Released(bs, i);
    ReleasedParts(bs, i);
    UsedAround(bs, i);
    UsedAround(r, i);
    UsedNone(bs[i + 1..k]);
    UsedSplit(bs[i + 1..k], bs[k..]);
  }

  lemma ReleasedParts(bs: seq<Block>, i: nat)
    requires i < |bs|
    ensures var k, r := RunEnd(bs, i + 1), Released(bs, i);
            && i < |r| && !r[i].used && r[..i] == bs[..i] && r[i + 1..] == bs[k..]
            && bs[i + 1..] == bs[i + 1..k] + bs[k..]
  {
  }

  /** malloc takes exactly the bytes of the block it hands out, at most eleven more than the rounded request. */
  lemma UsedAfterCarve(bs: seq<Block>, i: nat, n: nat)
    requires i < |bs| && n <= bs[i].size && !bs[i].used
    ensures var r := Carve(bs, i, n);
            i < |r| && r[i].size <= n + 11 && UsedBytes(r) == UsedBytes(bs) + r[i].size
  {
    var r := Carve(bs, i, n);
    UsedAround(bs, i);
    UsedAround(r, i);
    assert r[..i] == bs[..i];
    if |r| > |bs| {
      assert r[i + 1..][1..] == bs[i + 1..];
      UsedAround(r[i + 1..], 0);
      assert r[i + 1..][..0] == [];
    } else {
      assert r[i + 1..] == bs[i + 1..];
    }
  }

  /** The bytes in use rise by those of the block handed out. */
  lemma UsedAfterMalloc(bs: seq<Block>, len: nat, n: u32)
    requires Sound(bs, len) && MallocResult(bs, n) != 0
    ensures var cs := AfterMalloc(bs, n);
            var i := IndexOf(cs, MallocResult(bs, n));
            i < |cs| && cs[i].size <= Rounded(n) + 11 && UsedBytes(cs) == UsedBytes(bs) + cs[i].size
  {
    var i := FirstFit(bs, Rounded(n), 0);
    UsedAfterCarve(bs, i, Rounded(n));
    CarveSound(bs, len, i, Rounded(n));
    MallocPlacement(bs, len, n);
    IndexOfUnique(bs, len, i);
    IndexOfUnique(AfterMalloc(bs, n), len, i);
  }

  /** The bytes in use fall by those of the block released; releasing what is not allocated changes nothing. */
  lemma UsedAfterFree(bs: seq<Block>, p: nat)
    requires p != 0
    ensures var i := IndexOf(bs, p);
            if i < |bs| && bs[i].used then UsedBytes(AfterFree(bs, p)) == UsedBytes(bs) - bs[i].size
            else AfterFree(bs, p) == bs
  {
    var i := IndexOf(bs, p);
    if i < |bs| && bs[i].used { UsedAfterRelease(bs, i); }
  }

  /** A fresh heap has nothing in use. */
  lemma NothingUsed(len: nat)
    requires len >= 2 * HEADER
    ensures UsedBytes(Initial(len)) == 0 && FreeBytes(Initial(len)) == len - 16
  {
    InitialWellFormed(len);
    Conservation(Initial(len), len);
    UsedAround(Initial(len), 0);
    UsedOne(Initial(len)[1]);
    assert Initial(len)[1..] == [Initial(len)[1]] && Initial(len)[..0] == [];
  }

  // ---------------------------------------------------------------- runs

  datatype Request =
    | Malloc(n: u32)
    | Calloc(nmemb: u32, each: u32)
    | Realloc(p: nat, n: u32)
    | Free(p: nat)

  /** Byte count that calloc passes on: the product in 32-bit arithmetic. */
  function Product(nmemb: u32, each: u32): u32 { nmemb * each % TWO32 }

  /** The block list after one request. */
  function Step(bs: seq<Block>, r: Request): seq<Block> {
    match r
    case Malloc(n) => AfterMalloc(bs, n)
    case Calloc(nmemb, each) => AfterMalloc(bs, Product(nmemb, each))
    case Free(p) => AfterFree(bs, p)
    case Realloc(p, n) =>
      if p != 0 && n == 0 then AfterFree(bs, p)
      else if p == 0 then AfterMalloc(bs, n)
      else if !Allocated(bs, p) || MallocResult(bs, n) == 0 then bs
      else AfterFree(AfterMalloc(bs, n), p)
  }

  /** The header in front of `p` is marked in use. */
  predicate Allocated(bs: seq<Block>, p: nat) {
    var i := IndexOf(bs, p);
    i < |bs| && bs[i].used
  }

  /** The payload offset that one request returns, or 0. */
  function Result(bs: seq<Block>, r: Request): nat {
    match r
    case Malloc(n) => MallocResult(bs, n)
    case Calloc(nmemb, each) => MallocResult(bs, Product(nmemb, each))
    case Free(p) => 0
    case Realloc(p, n) => if n == 0 || (p != 0 && !Allocated(bs, p)) then 0 else MallocResult(bs, n)
  }

  /** What the allocator asks of its callers. */
  predicate Admissible(bs: seq<Block>, r: Request) {
    match r
    case Malloc(n) => n <= MAX_REQUEST
    case Calloc(nmemb, each) => Product(nmemb, each) <= MAX_REQUEST
    case Free(p) => p == 0 || Live(bs, p)
    case Realloc(p, n) => n <= MAX_REQUEST && if p == 0 then n != 0 else Live(bs, p)
  }

  /** The pointer a request gives up, if any. */
  function GivenUp(bs: seq<Block>, r: Request): nat {
    match r
    case Malloc(_) => 0
    case Calloc(_, _) => 0
    case Free(p) => p
    case Realloc(p, n) => if p != 0 && n != 0 && MallocResult(bs, n) == 0 then 0 else p
  }

  /** A block allocated before malloc is live after it, at the same place with the same size. */
  lemma MallocKeepsLive(bs: seq<Block>, len: nat, n: u32)
    requires WellFormed(bs, len) && n <= MAX_REQUEST
    ensures WellFormed(AfterMalloc(bs, n), len)
    ensures forall b :: b in bs && b.used ==> b in AfterMalloc(bs, n)
    ensures MallocResult(bs, n) != 0 ==> !Live(bs, MallocResult(bs, n)) && Live(AfterMalloc(bs, n), MallocResult(bs, n))
  {
    MallocKeepsWellFormed(bs, len, n);
    if n > 0 && MallocResult(bs, n) != 0 {
      MallocPlacement(bs, len, n);
      var p := MallocResult(bs, n);
      if Live(bs, p) {
        var i :| 0 <= i < |bs| && bs[i].used && bs[i].size > 0 && bs[i].Payload() == p;
        IndexOfUnique(bs, len, i);
      }
    }
  }

  /** Every admissible request keeps the invariant and every live block it was not asked to give up. */
  lemma StepKeeps(bs: seq<Block>, len: nat, r: Request)
    requires WellFormed(bs, len) && Admissible(bs, r)
    ensures WellFormed(Step(bs, r), len)
    ensures forall b :: b in bs && b.used && b.Payload() != GivenUp(bs, r) ==> b in Step(bs, r)
  {
    match r
    case Malloc(n) => MallocKeepsLive(bs, len, n);
    case Calloc(nmemb, each) => MallocKeepsLive(bs, len, Product(nmemb, each));
    case Free(p) => FreeKeepsWellFormed(bs, len, p);
    case Realloc(p, n) =>
      if p != 0 && n == 0 {
        FreeKeepsWellFormed(bs, len, p);
      } else if p == 0 {
        MallocKeepsLive(bs, len, n);
      } else if MallocResult(bs, n) != 0 {
        LiveIsAllocated(bs, len, p);
        MallocKeepsLive(bs, len, n);
        LiveSurvives(bs, AfterMalloc(bs, n), p);
        FreeKeepsWellFormed(AfterMalloc(bs, n), len, p);
      }
  }

  /** The payload at `p` is allocated with room for `n` bytes. */
  predicate Holds(bs: seq<Block>, p: nat, n: nat) {
    exists i :: 0 <= i < |bs| && bs[i].used && bs[i].Payload() == p && n <= bs[i].size
  }

  /** Every allocated block of `bs` but the one at `p` stands in `cs`, and only one at `q` may have come. */
  predicate Replaced(bs: seq<Block>, cs: seq<Block>, p: nat, q: nat) {
    && (forall b :: b in bs && b.used && b.Payload() != p ==> b in cs)
    && (forall b :: b in cs && b.used ==> b in bs || b.Payload() == q)
  }

  /**
   What realloc comes to for the holder of `p`: either nothing has changed, or `p` is dead, a pointer that was dead
   before holds the bytes asked for, if any were, and every other allocated block stands as before.
   */
  lemma ReallocMoves(bs: seq<Block>, len: nat, p: nat, n: u32)
    requires Sound(bs, len) && Freeable(bs, p)
    ensures var q, cs := Result(bs, Request.Realloc(p, n)), Step(bs, Request.Realloc(p, n));
            && (n == 0 ==> q == 0)
            && (n != 0 && q == 0 ==> cs == bs)
            && (n == 0 || q != 0 ==> !Live(cs, p) && Replaced(bs, cs, p, q))
            && (q != 0 ==> q >= 8 && !Live(bs, q) && Holds(cs, q, Rounded(n)))
  {
    hide Released, AfterMalloc, MallocResult;
    if n == 0 {
      LiveReleased(bs, len, p);
    } else if MallocResult(bs, n) != 0 {
      FreeableIsAllocated(bs, len, p);
      MallocReplaces(bs, len, n);
      StaysFreeable(bs, AfterMalloc(bs, n), len, p);
      LiveReleased(AfterMalloc(bs, n), len, p);
      assert p != MallocResult(bs, n) by { GrantIsNew(bs, len, n, p); }
      HoldsAfter(AfterMalloc(bs, n), AfterFree(AfterMalloc(bs, n), p), p, MallocResult(bs, n), Rounded(n));
    }
  }

  /** `p` is the payload of an allocated block before the end marker. */
  predicate Freeable(bs: seq<Block>, p: nat) {
    exists i :: 0 <= i < |bs| - 1 && bs[i].used && bs[i].Payload() == p
  }

  lemma FreeableIsAllocated(bs: seq<Block>, len: nat, p: nat)
    requires Tiled(bs, len) && Freeable(bs, p)
    ensures Allocated(bs, p)
  {
    var i :| 0 <= i < |bs| - 1 && bs[i].used && bs[i].Payload() == p;
    IndexOfUnique(bs, len, i);
  }

  lemma StaysFreeable(bs: seq<Block>, cs: seq<Block>, len: nat, p: nat)
    requires Sound(bs, len) && Sound(cs, len) && Freeable(bs, p) && forall b :: b in bs && b.used ==> b in cs
    ensures Freeable(cs, p)
  {
    var i :| 0 <= i < |bs| - 1 && bs[i].used && bs[i].Payload() == p;
    Ordered(bs, len, i, |bs| - 1);
    var j :| 0 <= j < |cs| && cs[j] == bs[i];
    assert j != |cs| - 1;
  }

  /** Releasing an allocated pointer. */
  lemma LiveReleased(bs: seq<Block>, len: nat, p: nat)
    requires Sound(bs, len) && Freeable(bs, p)
    ensures Sound(AfterFree(bs, p), len) && !Live(AfterFree(bs, p), p) && Replaced(bs, AfterFree(bs, p), p, 0)
  {
    hide Released;
    var i :| 0 <= i < |bs| - 1 && bs[i].used && bs[i].Payload() == p;
    IndexOfUnique(bs, len, i);
    ReleaseSound(bs, len, i);
    ReleaseKeepsOthers(bs, len, i);
  }

  lemma MallocReplaces(bs: seq<Block>, len: nat, n: u32)
    requires Sound(bs, len) && MallocResult(bs, n) != 0
    ensures var q, cs := MallocResult(bs, n), AfterMalloc(bs, n);
            && Sound(cs, len) && Holds(cs, q, Rounded(n)) && !Live(bs, q) && q >= 8
            && (forall b :: b in bs && b.used ==> b in cs)
            && (forall b :: b in cs && b.used ==> b in bs || b.Payload() == q)
  {
    MallocPlacement(bs, len, n);
    var i := FirstFit(bs, Rounded(n), 0);
    CarveSound(bs, len, i, Rounded(n));
    NotLiveAt(bs, len, IndexOf(bs, MallocResult(bs, n)));
    forall b | b in bs && b.used ensures b in AfterMalloc(bs, n) {
      var j :| 0 <= j < |bs| && bs[j] == b;
    }
  }

  lemma GrantIsNew(bs: seq<Block>, len: nat, n: u32, p: nat)
    requires Sound(bs, len) && MallocResult(bs, n) != 0 && Freeable(bs, p)
    ensures p != MallocResult(bs, n)
  {
    MallocPlacement(bs, len, n);
    var i :| 0 <= i < |bs| - 1 && bs[i].used && bs[i].Payload() == p;
    IndexOfUnique(bs, len, i);
  }

  /** The payload of a free block is not live. */
  lemma NotLiveAt(bs: seq<Block>, len: nat, i: nat)
    requires Tiled(bs, len) && i < |bs| && !bs[i].used
    ensures !Live(bs, bs[i].Payload())
  {
    if Live(bs, bs[i].Payload()) {
      var j :| 0 <= j < |bs| && bs[j].used && bs[j].size > 0 && bs[j].Payload() == bs[i].Payload();
      IndexOfUnique(bs, len, i);
      IndexOfUnique(bs, len, j);
    }
  }

  /** A block other than `p` still holds its bytes when only `p` has gone. */
  lemma HoldsAfter(bs: seq<Block>, cs: seq<Block>, p: nat, q: nat, n: nat)
    requires Holds(bs, q, n) && Replaced(bs, cs, p, 0) && p != q
    ensures Holds(cs, q, n)
  {
    var i :| 0 <= i < |bs| && bs[i].used && bs[i].Payload() == q && n <= bs[i].size;
    var j :| 0 <= j < |cs| && cs[j] == bs[i];
  }

  lemma LiveIsAllocated(bs: seq<Block>, len: nat, p: nat)
    requires Tiled(bs, len) && Live(bs, p)
    ensures Allocated(bs, p)
  {
    var i :| 0 <= i < |bs| && bs[i].used && bs[i].size > 0 && bs[i].Payload() == p;
    IndexOfUnique(bs, len, i);
  }

  lemma LiveSurvives(bs: seq<Block>, cs: seq<Block>, p: nat)
    requires Live(bs, p) && forall b :: b in bs && b.used ==> b in cs
    ensures Live(cs, p)
  {
    var i :| 0 <= i < |bs| && bs[i].used && bs[i].size > 0 && bs[i].Payload() == p;
    var j :| 0 <= j < |cs| && cs[j] == bs[i];
  }

  function Run(bs: seq<Block>, rs: seq<Request>): seq<Block>
    decreases |rs|
  {
    if rs == [] then bs else Run(Step(bs, rs[0]), rs[1..])
  }

  predicate AdmissibleRun(bs: seq<Block>, rs: seq<Request>)
    decreases |rs|
  {
    rs == [] || (Admissible(bs, rs[0]) && AdmissibleRun(Step(bs, rs[0]), rs[1..]))
  }

  /** The blocks that heap_init lays down. */
  function Initial(len: nat): seq<Block>
    requires len >= 2 * HEADER
  {
    [Block(0, len - 2 * HEADER, false), Block(len - HEADER, 0, true)]
  }

  /** A fresh heap is well formed exactly when there is room for a non-empty block. */
  lemma InitialWellFormed(len: nat)
    requires len >= 2 * HEADER
    ensures Sound(Initial(len), len)
    ensures WellFormed(Initial(len), len) <==> len > 2 * HEADER
  {
    assert WellFormed(Initial(len), len) ==> Initial(len)[0].size > 0;
  }

  /** Every run of admissible requests keeps the invariant. */
  lemma {:induction false} RunKeeps(bs: seq<Block>, len: nat, rs: seq<Request>)
    requires WellFormed(bs, len) && AdmissibleRun(bs, rs)
    ensures WellFormed(Run(bs, rs), len)
    decreases |rs|
  {
    if rs != [] {
      StepKeeps(bs, len, rs[0]);
      RunKeeps(Step(bs, rs[0]), len, rs[1..]);
    }
  }

  /** No request of the run gives up the pointer `p`. */
  predicate NeverGivenUp(bs: seq<Block>, rs: seq<Request>, p: nat)
    decreases |rs|
  {
    rs == [] || (GivenUp(bs, rs[0]) != p && NeverGivenUp(Step(bs, rs[0]), rs[1..], p))
  }

  /** A live block keeps its place and size through every run that does not give it up. */
  lemma {:induction false} RunKeepsBlock(bs: seq<Block>, len: nat, rs: seq<Request>, b: Block)
    requires WellFormed(bs, len) && AdmissibleRun(bs, rs)
    requires b in bs && b.used && NeverGivenUp(bs, rs, b.Payload())
    ensures b in Run(bs, rs)
    decreases |rs|
  {
    if rs != [] {
      StepKeeps(bs, len, rs[0]);
      RunKeepsBlock(Step(bs, rs[0]), len, rs[1..], b);
    }
  }

  /**
   Over every run from a fresh heap: headers tile the heap, the scan reaches every block, live payloads
   are disjoint from each other and from every header, and every byte is accounted for.
   */
  lemma HeapSafety(len: nat, rs: seq<Request>)
    requires len > 2 * HEADER && AdmissibleRun(Initial(len), rs)
    ensures WellFormed(Run(Initial(len), rs), len)
    ensures var bs := Run(Initial(len), rs);
            && (forall i, j :: 0 <= i < j < |bs| ==> bs[i].End() <= bs[j].at)
            && FreeBytes(bs) + UsedBytes(bs) + HEADER * |bs| == len
  {
    InitialWellFormed(len);
    RunKeeps(Initial(len), len, rs);
    var bs := Run(Initial(len), rs);
    forall i, j | 0 <= i < j < |bs|
      ensures bs[i].End() <= bs[j].at
    {
      Ordered(bs, len, i, j);
    }
    Conservation(bs, len);
  }

  /**
   The block that calloc hands out has room for the elements asked for if and only if their total size is at most
   2^32 - 4; beyond, the product or its rounding has wrapped around.
   */
  lemma CallocRoom(bs: seq<Block>, len: nat, nmemb: u32, each: u32)
    requires Sound(bs, len) && len < TWO32 && Result(bs, Request.Calloc(nmemb, each)) != 0
    ensures var p, cs := Result(bs, Request.Calloc(nmemb, each)), Step(bs, Request.Calloc(nmemb, each));
            && IndexOf(cs, p) < |cs|
            && (cs[IndexOf(cs, p)].size >= nmemb * each <==> nmemb * each <= MAX_REQUEST)
  {
    hide Sound, Tiled, Product, AfterMalloc, MallocResult;
    var n := Product(nmemb, each);
    GrantedAt(bs, len, n);
    ProductBelow(nmemb, each);
  }

  lemma GrantedAt(bs: seq<Block>, len: nat, n: u32)
    requires Sound(bs, len) && MallocResult(bs, n) != 0
    ensures var cs := AfterMalloc(bs, n);
            var i := IndexOf(cs, MallocResult(bs, n));
            i < |cs| && Rounded(n) <= cs[i].size && cs[i].End() <= len
  {
    MallocPlacement(bs, len, n);
    var i := FirstFit(bs, Rounded(n), 0);
    IndexOfUnique(bs, len, i);
    CarveSound(bs, len, i, Rounded(n));
    IndexOfUnique(AfterMalloc(bs, n), len, i);
    InHeap(bs, len, i);
  }

  lemma ProductBelow(nmemb: u32, each: u32)
    ensures 0 <= nmemb * each && (nmemb * each < TWO32 ==> Product(nmemb, each) == nmemb * each)
  {
  }

  /** Two thousand million elements of two bytes get four bytes. */
  lemma CallocWraps()
    ensures var r := Request.Calloc(0x8000_0001, 2);
            Result(Initial(64), r) == 8 && Step(Initial(64), r)[0] == Block(0, 4, true)
  {
    assert Product(0x8000_0001, 2) == 2;
    assert FirstFit(Initial(64), 4, 0) == 0;
  }

  /** The failing family is inhabited: one oversized request on a fresh heap hides all its memory. */
  lemma OversizedRequestBreaksHeap()
    ensures var bs := AfterMalloc(Initial(64), 0xFFFF_FFFD);
            && !WellFormed(bs, 64)
            && forall n: u32 :: MallocResult(bs, n) == 0
  {
    var b0 := Initial(64);
    assert FirstFit(b0, 0, 0) == 0;
    var bs := AfterMalloc(b0, 0xFFFF_FFFD);
    assert bs[0] == Block(0, 0, true);
  }
}
