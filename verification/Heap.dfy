/**
 The heap allocator over one flat byte memory: block headers sit in line in front of the payloads
 and are read and rewritten in place.
 */
module Heap {
  import opened Bytes
  import opened HeapBlocks

  const MAGIC: u32 := 0xc91d58be

  /** Memory `m` holds the header of block `b`: signature with in-use bit, then size. */
  ghost predicate HeaderOf(m: seq<byte>, b: Block) {
    && b.End() <= |m|
    && Get32(m, b.at) == MAGIC + (if b.used then 1 else 0)
    && Get32(m, b.at + 4) == b.size
  }

  ghost predicate Encodes(m: seq<byte>, bs: seq<Block>) {
    forall i {:trigger HeaderOf(m, bs[i])} :: 0 <= i < |bs| ==> HeaderOf(m, bs[i])
  }

  /** Every byte of every allocated payload of `bs` is the same in `m` and `r`. */
  ghost predicate SamePayloads(m: seq<byte>, r: seq<byte>, bs: seq<Block>) {
    && |m| == |r|
    && forall b, i :: b in bs && b.used && b.Payload() <= i < b.End() && i < |m| ==> r[i] == m[i]
  }

  /** The payload of `b` has the same bytes in `m` and `r`. */
  ghost predicate SamePayload(m: seq<byte>, r: seq<byte>, b: Block) {
    && b.End() <= |m| == |r|
    && m[b.Payload()..b.End()] == r[b.Payload()..b.End()]
  }

  lemma SamePayloadRefl(m: seq<byte>, bs: seq<Block>, len: nat)
    requires Tiled(bs, len) && len <= |m|
    ensures forall b :: b in bs ==> SamePayload(m, m, b)
  {
    forall b | b in bs
      ensures SamePayload(m, m, b)
    {
      var i :| 0 <= i < |bs| && bs[i] == b;
      InHeap(bs, len, i);
    }
  }

  lemma PayloadOf(m: seq<byte>, r: seq<byte>, bs: seq<Block>, len: nat, b: Block)
    requires SamePayloads(m, r, bs) && Tiled(bs, len) && len <= |m| && b in bs && b.used
    ensures SamePayload(m, r, b)
  {
    var i :| 0 <= i < |bs| && bs[i] == b;
    InHeap(bs, len, i);
  }

  lemma SamePayloadTrans(m0: seq<byte>, m: seq<byte>, r: seq<byte>, b: Block)
    requires SamePayload(m0, m, b) && SamePayload(m, r, b)
    ensures SamePayload(m0, r, b)
  {
  }

  /** `r` differs from `m` only inside [lo, hi). */
  ghost predicate ChangedOnly(m: seq<byte>, r: seq<byte>, lo: nat, hi: nat) {
    && |m| == |r|
    && forall i :: 0 <= i < |m| && !(lo <= i < hi) ==> r[i] == m[i]
  }

  lemma HeaderFrame(m: seq<byte>, r: seq<byte>, b: Block, lo: nat, hi: nat)
    requires HeaderOf(m, b) && ChangedOnly(m, r, lo, hi)
    requires b.at + HEADER <= lo || hi <= b.at
    ensures HeaderOf(r, b)
  {
    Get32Same(m, r, b.at);
    Get32Same(m, r, b.at + 4);
  }

  /** Rewriting bytes of block `i` alone leaves the other headers and payloads alone. */
  lemma BlockFrame(m: seq<byte>, r: seq<byte>, bs: seq<Block>, len: nat, i: nat)
    requires Tiled(bs, len) && i < |bs| && Encodes(m, bs) && ChangedOnly(m, r, bs[i].at, bs[i].End())
    ensures forall j :: 0 <= j < |bs| && j != i ==> HeaderOf(r, bs[j])
    ensures !bs[i].used ==> SamePayloads(m, r, bs)
  {
    forall j | 0 <= j < |bs| && j != i
      ensures HeaderOf(r, bs[j]) && Disjoint(bs[i], bs[j])
    {
      if j < i { Ordered(bs, len, j, i); } else { Ordered(bs, len, i, j); }
      assert HeaderOf(m, bs[j]);
      HeaderFrame(m, r, bs[j], bs[i].at, bs[i].End());
    }
  }

  /** The header of another block is not touched by changes inside block `i`. */
  lemma OtherHeader(m: seq<byte>, r: seq<byte>, bs: seq<Block>, len: nat, i: nat, j: nat)
    requires Tiled(bs, len) && i < |bs| && j < |bs| && i != j
    requires Encodes(m, bs) && ChangedOnly(m, r, bs[i].at, bs[i].End())
    ensures HeaderOf(r, bs[j])
  {
    BlockFrame(m, r, bs, len, i);
  }

  lemma CarveEncoded(m: seq<byte>, r: seq<byte>, bs: seq<Block>, len: nat, i: nat, n: nat)
    requires Tiled(bs, len) && Encodes(m, bs) && i < |bs| && !bs[i].used && n <= bs[i].size
    requires ChangedOnly(m, r, bs[i].at, bs[i].End())
    requires var cs := Carve(bs, i, n); i < |cs| && HeaderOf(r, cs[i]) && (|cs| > |bs| ==> HeaderOf(r, cs[i + 1]))
    ensures Encodes(r, Carve(bs, i, n)) && SamePayloads(m, r, bs)
  {
    hide HeaderOf;
    hide Tiled;
    hide Encodes;
    hide Carve;
    BlockFrame(m, r, bs, len, i);
    var cs := Carve(bs, i, n);
    forall j | 0 <= j < |cs|
      ensures HeaderOf(r, cs[j])
    {
      if j != i && !(|cs| > |bs| && j == i + 1) {
        CarvedAt(bs, i, n, j);
      }
    }
    Encoded(r, cs);
  }

  lemma Encoded(m: seq<byte>, bs: seq<Block>)
    requires forall i :: 0 <= i < |bs| ==> HeaderOf(m, bs[i])
    ensures Encodes(m, bs)
  {
  }

  lemma ReleaseEncoded(m: seq<byte>, r: seq<byte>, bs: seq<Block>, len: nat, i: nat)
    requires Sound(bs, len) && Encodes(m, bs) && i < |bs| - 1
    requires ChangedOnly(m, r, bs[i].at, bs[i].at + HEADER)
    requires HeaderOf(r, Block(bs[i].at, Span(bs, i, RunEnd(bs, i + 1)), false))
    ensures Encodes(r, Released(bs, i)) && SamePayloads(m, r, Released(bs, i))
  {
    hide HeaderOf;
    hide Tiled;
    hide Encodes;
    hide Released;
    hide SamePayloads;
    hide ChangedOnly;
    var rs := Released(bs, i);
    ReleaseSound(bs, len, i);
    ReleaseShape(bs, i);
    HeaderChange(m, r, rs, len, i);
    ChangedWithin(m, r, bs[i].at, bs[i].Payload(), bs[i].End());
    forall j | 0 <= j < |rs|
      ensures HeaderOf(r, rs[j])
    {
      if j != i {
        ReleasedAt(bs, i, j);
        OtherHeader(m, r, bs, len, i, ReleasedFrom(bs, i, j));
      }
    }
    Encoded(r, rs);
  }

  /** Rewriting payload bytes of allocated block `i` leaves every header and every other payload alone. */
  lemma PayloadFrame(m: seq<byte>, r: seq<byte>, bs: seq<Block>, len: nat, i: nat)
    requires Tiled(bs, len) && i < |bs| && Encodes(m, bs) && ChangedOnly(m, r, bs[i].Payload(), bs[i].End())
    ensures Encodes(r, bs)
    ensures forall b :: b in bs && b != bs[i] ==> Disjoint(bs[i], b)
  {
    hide Get32;
    BlockFrame(m, r, bs, len, i);
    assert HeaderOf(m, bs[i]);
    HeaderFrame(m, r, bs[i], bs[i].Payload(), bs[i].End());
    forall b | b in bs && b != bs[i]
      ensures Disjoint(bs[i], b)
    {
      var j :| 0 <= j < |bs| && bs[j] == b;
      if j < i { Ordered(bs, len, j, i); } else { Ordered(bs, len, i, j); }
    }
  }

  /** Blocks that were allocated before a malloc keep their payload when only the fresh block `i` is written. */
  lemma OthersSame(m0: seq<byte>, m: seq<byte>, r: seq<byte>, bs: seq<Block>, cs: seq<Block>, i: nat)
    requires i < |cs| && SamePayloads(m0, m, bs) && ChangedOnly(m, r, cs[i].Payload(), cs[i].End())
    requires forall b :: b in bs && b.used ==> b in cs && b != cs[i]
    requires forall b :: b in cs && b != cs[i] ==> Disjoint(cs[i], b)
    ensures SamePayloads(m0, r, bs)
  {
  }

  /** Filling the front of the fresh block `i` keeps every header and every payload allocated before. */
  lemma GrantFilled(m0: seq<byte>, m: seq<byte>, r: seq<byte>, bs: seq<Block>, cs: seq<Block>, len: nat, i: nat, w: nat)
    requires Tiled(cs, len) && i < |cs| && Encodes(m, cs) && SamePayloads(m0, m, bs)
    requires ChangedOnly(m, r, cs[i].Payload(), cs[i].Payload() + w) && w <= cs[i].size
    requires forall b :: b in bs && b.used ==> b in cs && b != cs[i]
    ensures Encodes(r, cs) && SamePayloads(m0, r, bs)
  {
    hide Tiled;
    hide Encodes;
    hide SamePayloads;
    ChangedWithin(m, r, cs[i].Payload(), cs[i].Payload() + w, cs[i].End());
    PayloadFrame(m, r, cs, len, i);
    OthersSame(m0, m, r, bs, cs, i);
  }

  /** Copies one word. */
  method CopyWord(mem: array<byte>, d: nat, s: nat)
    requires d + 4 <= mem.Length && s + 4 <= mem.Length
    requires d + 4 <= s || s + 4 <= d
    modifies mem
    ensures Copied(old(mem[..]), mem[..], d, s, 4)
  {
    ghost var m := mem[..];
    mem[d], mem[d + 1], mem[d + 2], mem[d + 3] := mem[s], mem[s + 1], mem[s + 2], mem[s + 3];
    WordCopied(m, mem[..], d, s);
  }

  lemma WordCopied(m: seq<byte>, r: seq<byte>, d: nat, s: nat)
    requires d + 4 <= |m| == |r| && s + 4 <= |m| && ChangedOnly(m, r, d, d + 4)
    requires r[d] == m[s] && r[d + 1] == m[s + 1] && r[d + 2] == m[s + 2] && r[d + 3] == m[s + 3]
    ensures Copied(m, r, d, s, 4)
  {
    var now, was := r[d..d + 4], m[s..s + 4];
    assert now == [now[0], now[1], now[2], now[3]];
    assert was == [was[0], was[1], was[2], was[3]];
  }

  /** `r` is `m` with the `n` bytes from `s` on copied to `d`. */
  ghost predicate Copied(m: seq<byte>, r: seq<byte>, d: nat, s: nat, n: nat) {
    && ChangedOnly(m, r, d, d + n)
    && d + n <= |m| && s + n <= |m|
    && r[d..d + n] == m[s..s + n]
  }

  lemma NothingCopied(m: seq<byte>, d: nat, s: nat)
    requires d <= |m| && s <= |m|
    ensures Copied(m, m, d, s, 0)
  {
  }

  /** One more word copied in front of `rest` bytes copied already. */
  lemma GrowCopied(m: seq<byte>, r0: seq<byte>, r: seq<byte>, d: nat, s: nat, rest: nat)
    requires d + 4 <= |m| && (s + 4 <= d + 4 || d + 4 + rest <= s)
    requires Copied(m, r0, d + 4, s + 4, rest) && Copied(r0, r, d, s, 4)
    ensures Copied(m, r, d, s, 4 + rest)
  {
    assert r0[s..s + 4] == m[s..s + 4];
    assert r[d + 4..d + 4 + rest] == r0[d + 4..d + 4 + rest];
    assert r[d..d + 4 + rest] == r[d..d + 4] + r[d + 4..d + 4 + rest];
    assert m[s..s + 4 + rest] == m[s..s + 4] + m[s + 4..s + 4 + rest];
  }

  /** Copies `w` words, from the last one down, between ranges that do not overlap. */
  method CopyWords(mem: array<byte>, dst: nat, src: nat, w: nat)
    requires dst + 4 * w <= mem.Length && src + 4 * w <= mem.Length
    requires dst + 4 * w <= src || src + 4 * w <= dst
    modifies mem
    ensures Copied(old(mem[..]), mem[..], dst, src, 4 * w)
  {
    hide Copied;
    ghost var m := mem[..];
    var k: nat := w;
    NothingCopied(m, dst + 4 * w, src + 4 * w);
    while k > 0
      invariant k <= w && Copied(m, mem[..], dst + 4 * k, src + 4 * k, 4 * (w - k))
    {
      k := k - 1;
      ghost var r := mem[..];
      var d, s := dst + 4 * k, src + 4 * k;
      CopyWord(mem, d, s);
      GrowCopied(m, r, mem[..], d, s, 4 * (w - k - 1));
    }
  }

  /** The `n` bytes from `p` on are zero. */
  ghost predicate Cleared(m: seq<byte>, p: int, n: nat) {
    && 0 <= p && p + n <= |m|
    && forall i :: p <= i < p + n ==> m[i] == 0
  }

  /** Number of words that cover `n` bytes, in 32-bit arithmetic. */
  function Words(n: u32): (w: nat)
    ensures 4 * w == Rounded(n)
  {
    (n + 3) % TWO32 / 4
  }

  /** Number of words that cover `n` bytes. */
  function WordsOver(n: nat): (w: nat)
    ensures n <= 4 * w < n + 4
  {
    (n + 3) / 4
  }

  /** A range of whole words with room for `n` bytes has room for the words that cover them. */
  lemma WordsFit(n: nat, r: nat)
    requires r % 4 == 0 && n <= r
    ensures 4 * WordsOver(n) <= r
  {
  }

  function Least(a: nat, b: nat): nat { if a < b then a else b }

  /** The `n` bytes from `q` on in `r` are the `n` bytes from `p` on in `m`. */
  ghost predicate SamePrefix(m: seq<byte>, p: int, r: seq<byte>, q: int, n: nat) {
    && 0 <= p && p + n <= |m| && 0 <= q && q + n <= |r|
    && r[q..q + n] == m[p..p + n]
  }

  /** Byte `j` behind `q` in `r` is byte `j` behind `p` in `m`. */
  ghost predicate ByteMoved(m: seq<byte>, p: int, r: seq<byte>, q: int, j: nat) {
    0 <= p && p + j < |m| && 0 <= q && q + j < |r| && r[q + j] == m[p + j]
  }

  lemma PrefixBytes(m: seq<byte>, p: int, r: seq<byte>, q: int, a: nat, b: nat)
    requires SamePrefix(m, p, r, q, Least(a, b))
    ensures forall j: nat :: j < a && j < b ==> ByteMoved(m, p, r, q, j)
  {
    var x, y := r[q..q + Least(a, b)], m[p..p + Least(a, b)];
    forall j: nat | j < a && j < b ensures ByteMoved(m, p, r, q, j) {
      assert x[j] == y[j];
    }
  }

  /** An old block is still in the list, and a header's worth of heap follows it. */
  lemma OldBlock(bs: seq<Block>, cs: seq<Block>, len: nat, k: nat) returns (o: nat)
    requires Sound(bs, len) && Sound(cs, len) && k < |bs| - 1 && bs[k] in cs
    ensures o < |cs| - 1 && cs[o] == bs[k] && bs[k].End() + HEADER <= len
  {
    Ordered(bs, len, k, |bs| - 1);
    o :| 0 <= o < |cs| && cs[o] == bs[k];
  }

  lemma PrefixKept(m0: seq<byte>, p: int, m: seq<byte>, r: seq<byte>, q: int, n: nat, lo: nat, hi: nat)
    requires SamePrefix(m0, p, m, q, n) && ChangedOnly(m, r, lo, hi) && (hi <= q || q + n <= lo)
    ensures SamePrefix(m0, p, r, q, n)
  {
    assert r[q..q + n] == m[q..q + n];
  }

  lemma ChangedWithin(m: seq<byte>, r: seq<byte>, lo: nat, hi: nat, top: nat)
    requires ChangedOnly(m, r, lo, hi) && hi <= top
    ensures ChangedOnly(m, r, lo, top)
  {
  }

  lemma SamePayloadsRefl(m: seq<byte>, bs: seq<Block>)
    ensures SamePayloads(m, m, bs)
  {
  }

  lemma PayloadsCompose(m0: seq<byte>, m: seq<byte>, r: seq<byte>, bs: seq<Block>)
    requires SamePayloads(m0, m, bs) && SamePayloads(m, r, bs)
    ensures SamePayloads(m0, r, bs)
  {
  }

  /** Whole words copied out of a payload carry its first `n` bytes. */
  lemma PrefixCopied(m0: seq<byte>, m: seq<byte>, r: seq<byte>, bs: seq<Block>, b: Block, q: nat, n: nat, w: nat)
    requires b in bs && b.used && SamePayloads(m0, m, bs) && b.End() <= |m| == |r|
    requires n <= w && n <= b.size && Copied(m, r, q, b.Payload(), w)
    ensures SamePrefix(m0, b.Payload(), r, q, n)
  {
    hide HeaderOf;
    var p := b.Payload();
    var copied, wanted := r[q..q + n], m0[p..p + n];
    forall i | 0 <= i < n
      ensures copied[i] == wanted[i]
    {
      assert r[q..q + w][i] == m[p..p + w][i];
      assert m0[p + i] == m[p + i];
    }
    assert copied == wanted;
  }

  /** Rewriting only the header of block `k` leaves all payloads alone. */
  lemma HeaderChange(m: seq<byte>, r: seq<byte>, bs: seq<Block>, len: nat, k: nat)
    requires Tiled(bs, len) && k < |bs| && ChangedOnly(m, r, bs[k].at, bs[k].Payload())
    ensures SamePayloads(m, r, bs)
  {
    forall b | b in bs
      ensures b.Payload() >= bs[k].Payload() || b.End() <= bs[k].at
    {
      var j :| 0 <= j < |bs| && bs[j] == b;
      if j < k { Ordered(bs, len, j, k); } else if j > k { Ordered(bs, len, k, j); }
    }
  }

  /** Clears `w` words, from the last one down. */
  method ClearWords(mem: array<byte>, dst: nat, w: nat)
    requires dst + 4 * w <= mem.Length
    modifies mem
    ensures ChangedOnly(old(mem[..]), mem[..], dst, dst + 4 * w)
    ensures forall i :: dst <= i < dst + 4 * w ==> mem[..][i] == 0
  {
    ghost var m := mem[..];
    var k: nat := w;
    while k > 0
      invariant k <= w && ChangedOnly(m, mem[..], dst, dst + 4 * w)
      invariant forall i :: dst + 4 * k <= i < dst + 4 * w ==> mem[..][i] == 0
    {
      k := k - 1;
      var d := dst + 4 * k;
      mem[d], mem[d + 1], mem[d + 2], mem[d + 3] := 0, 0, 0, 0;
    }
  }

  /** Stores the magic (field 0) or the size (field 4) of the header at `at`. */
  method StoreField(mem: array<byte>, at: nat, field: nat, v: u32)
    requires at + HEADER <= mem.Length && (field == 0 || field == 4)
    modifies mem
    ensures Get32(mem[..], at + field) == v
    ensures Get32(mem[..], at + (4 - field)) == Get32(old(mem[..]), at + (4 - field))
    ensures ChangedOnly(old(mem[..]), mem[..], at, at + HEADER)
  {
    ghost var m := mem[..];
    Store32(mem, at + field, v);
    Get32Same(m, mem[..], at + (4 - field));
  }

  /** Stores the size of block `b`. */
  method StoreSize(mem: array<byte>, at: nat, s: u32, ghost b: Block)
    requires HeaderOf(mem[..], b) && at == b.at && b.End() <= mem.Length && at + HEADER + s <= mem.Length
    modifies mem
    ensures HeaderOf(mem[..], b.(size := s)) && ChangedOnly(old(mem[..]), mem[..], at, at + HEADER)
  {
    hide Get32;
    StoreField(mem, at, 4, s);
  }

  lemma ChangedAgain(m0: seq<byte>, m: seq<byte>, r: seq<byte>, lo: nat, hi: nat)
    requires ChangedOnly(m0, m, lo, hi) && ChangedOnly(m, r, lo, hi)
    ensures ChangedOnly(m0, r, lo, hi)
  {
  }

  lemma InitialEncoded(m: seq<byte>, r: seq<byte>, len: nat)
    requires 2 * HEADER <= len <= |m|
    requires Get32(m, 0) == MAGIC && Get32(m, 4) == len - 2 * HEADER
    requires ChangedOnly(m, r, len - HEADER, len)
    requires Get32(r, len - HEADER) == MAGIC + 1 && Get32(r, len - HEADER + 4) == 0
    ensures Sound(Initial(len), len) && Encodes(r, Initial(len))
  {
    InitialWellFormed(len);
    var bs := Initial(len);
    assert HeaderOf(m, bs[0]);
    HeaderFrame(m, r, bs[0], len - HEADER, len);
    assert HeaderOf(r, bs[1]);
  }

  /** One step of a scan that adds up block sizes, with the bound that keeps it inside 32 bits. */
  lemma SumStep(bs: seq<Block>, len: nat, k: nat)
    requires Tiled(bs, len) && k < |bs|
    ensures bs[k].End() == if k + 1 < |bs| then bs[k + 1].at else len
    ensures FreeBytes(bs[..k + 1]) == FreeBytes(bs[..k]) + if bs[k].used then 0 else bs[k].size
    ensures UsedBytes(bs[..k + 1]) == UsedBytes(bs[..k]) + if bs[k].used then bs[k].size else 0
    ensures FreeBytes(bs[..k + 1]) + UsedBytes(bs[..k + 1]) <= len
  {
    assert bs[..k + 1][..k] == bs[..k];
    PrefixConserved(bs, len, k + 1);
    InHeap(bs, len, k);
  }

  /** The heap context together with the memory it manages. */
  class HeapCtx {
    const mem: array<byte>
    const start: u32
    const size: u32
    ghost var blocks: seq<Block>

    /** The headers in memory describe a sound block list. */
    ghost predicate Valid()
      reads this, mem
    {
      && start > 0
      && size <= mem.Length
      && start + size < TWO32
      && Sound(blocks, size)
      && Encodes(mem[..], blocks)
    }

    /** Absolute address of an offset; offset 0 stands for NULL. */
    function Address(p: nat): nat { if p == 0 then 0 else start + p }

    /** Offset of an absolute address. */
    function Offset(ptr: u32): int { if ptr == 0 then 0 else ptr - start }

    constructor (mem: array<byte>, start: u32, memLen: u32)
      requires start > 0 && 2 * HEADER <= memLen <= mem.Length && start + memLen < TWO32
      modifies mem
      ensures Valid() && this.mem == mem && this.start == start
      ensures size == memLen - memLen % 2
      ensures blocks == Initial(size)
    {
      hide Get32;
      hide Put32;
      hide Sound;
      hide Encodes;
      hide Initial;
      var len := memLen - memLen % 2;
      this.mem := mem;
      this.start := start;
      this.size := len;
      blocks := Initial(len);
      new;
      StoreField(mem, 0, 0, MAGIC);
      StoreField(mem, 0, 4, len - 2 * HEADER);
      ghost var m := mem[..];
      var p := len - 2 * HEADER + HEADER;
      StoreField(mem, p, 0, MAGIC + 1);
      StoreField(mem, p, 4, 0);
      InitialEncoded(m, mem[..], len);
    }

    /** heap_malloc: first fit over the headers, splitting the block it finds. */
    method Malloc(request: u32) returns (ptr: u32)
      requires Valid()
      modifies this, mem
      ensures Valid()
      ensures blocks == AfterMalloc(old(blocks), request)
      ensures ptr == Address(MallocResult(old(blocks), request))
      ensures ptr == 0 ==> mem[..] == old(mem[..]) && blocks == old(blocks)
      ensures ptr != 0 && request <= MAX_REQUEST ==>
                && start + 8 <= ptr && !Live(old(blocks), Offset(ptr)) && Holds(blocks, Offset(ptr), request)
                && Replaced(old(blocks), blocks, 0, Offset(ptr))
      ensures ptr != 0 ==> exists k :: 0 <= k < |blocks| && blocks[k].used && ptr == start + blocks[k].at + 8
      ensures SamePayloads(old(mem[..]), mem[..], old(blocks))
    {
      hide AfterMalloc, MallocResult, Live, Holds, Replaced, Get32, Encodes;
      MallocLaw(request);
      MallocFailure(blocks, request);
      ptr := ScanHeaders(request);
    }

    /** The scan of heap_malloc. */
    method ScanHeaders(request: u32) returns (ptr: u32)
      requires Valid()
      modifies this, mem
      ensures Valid()
      ensures blocks == AfterMalloc(old(blocks), request)
      ensures ptr == Address(MallocResult(old(blocks), request))
      ensures ptr == 0 ==> mem[..] == old(mem[..])
      ensures SamePayloads(old(mem[..]), mem[..], old(blocks))
    {
      hide Get32;
      if request == 0 {
        return 0;
      }
      var n: u32 := (request + 3) % TWO32 / 4 * 4;
      var p: nat := 0;
      ghost var k := 0;
      var s := FieldAt(p, 4, blocks[k]);
      while s != 0
        invariant Valid() && blocks == old(blocks) && mem[..] == old(mem[..])
        invariant 0 <= k < |blocks| && p == blocks[k].at && s == blocks[k].size
        invariant FirstFit(blocks, n, 0) == FirstFit(blocks, n, k)
        decreases |blocks| - k
      {
        var magic := FieldAt(p, 0, blocks[k]);
        if magic % 2 == 0 && n <= s {
          InHeap(blocks, size, k);
          CarveAt(p, n, k);
          ptr := start + (p + HEADER);
          return;
        }
        assert blocks[k].End() == blocks[k + 1].at;
        p := p + s + HEADER;
        k := k + 1;
        s := FieldAt(p, 4, blocks[k]);
      }
      return 0;
    }

    /** Reads the magic (field 0) or the size (field 4) of the header of block `b`. */
    method FieldAt(p: nat, field: nat, ghost b: Block) returns (v: u32)
      requires HeaderOf(mem[..], b) && p == b.at && (field == 0 || field == 4)
      ensures field == 0 ==> v == MAGIC + (if b.used then 1 else 0)
      ensures field == 4 ==> v == b.size
    {
      v := Load32(mem, p + field);
    }

    /** The allocating branch of heap_malloc, for the free block `k` at `p`. */
    method CarveAt(p: nat, n: u32, ghost k: nat)
      requires Valid() && k < |blocks| && p == blocks[k].at && !blocks[k].used && n <= blocks[k].size
      modifies this, mem
      ensures Valid()
      ensures blocks == Carve(old(blocks), k, n)
      ensures SamePayloads(old(mem[..]), mem[..], old(blocks))
    {
      hide Get32;
      ghost var m, bs, cs := mem[..], blocks, Carve(blocks, k, n);
      CarveShape(bs, k, n);
      InHeap(bs, size, k);
      SplitAt(p, n, bs[k]);
      ghost var m2 := mem[..];
      var magic := Load32(mem, p);
      StoreField(mem, p, 0, magic + 1);
      if |cs| > |bs| { HeaderFrame(m2, mem[..], cs[k + 1], p, p + HEADER); }
      CarveEncoded(m, mem[..], bs, size, k, n);
      CarveSound(bs, size, k, n);
      blocks := cs;
    }

    /** Divides free block `b` at `p` when there is room for another block behind `n` bytes. */
    method SplitAt(p: nat, n: u32, ghost b: Block)
      requires p == b.at && HeaderOf(mem[..], b) && !b.used && n <= b.size
      modifies mem
      ensures ChangedOnly(old(mem[..]), mem[..], b.at, b.End())
      ensures b.size - n > HEADER + 3 ==>
                && HeaderOf(mem[..], Block(b.at, n, false))
                && HeaderOf(mem[..], Block(b.at + HEADER + n, b.size - n - HEADER, false))
      ensures b.size - n <= HEADER + 3 ==> mem[..] == old(mem[..])
    {
      hide Get32;
      var s := FieldAt(p, 4, b);
      if s - n > HEADER + 3 {
        ghost var m := mem[..];
        var p2 := p + HEADER + n;
        StoreField(mem, p2, 0, MAGIC);
        StoreField(mem, p2, 4, s - (n + HEADER));
        ghost var m1 := mem[..];
        Get32Same(m, m1, p);
        StoreField(mem, p, 4, n);
        HeaderFrame(m1, mem[..], Block(p2, s - n - HEADER, false), p, p + HEADER);
      }
    }

    /** heap_calloc: allocate, then clear whole words from the last one down. */
    method Calloc(nmemb: u32, each: u32) returns (ptr: u32)
      requires Valid()
      modifies this, mem
      ensures Valid()
      ensures blocks == Step(old(blocks), Request.Calloc(nmemb, each))
      ensures ptr == Address(Result(old(blocks), Request.Calloc(nmemb, each)))
      ensures SamePayloads(old(mem[..]), mem[..], old(blocks))
      ensures ptr != 0 && Product(nmemb, each) <= MAX_REQUEST ==> Cleared(mem[..], Offset(ptr), Product(nmemb, each))
      ensures ptr != 0 && 0 <= nmemb * each <= MAX_REQUEST ==>
                Holds(blocks, Offset(ptr), nmemb * each) && Cleared(mem[..], Offset(ptr), nmemb * each)
    {
      hide Get32;
      hide Product;
      hide Holds, Live, Replaced;
      ProductBelow(nmemb, each);
      ghost var m0, bs := mem[..], blocks;
      var n: u32 := Product(nmemb, each);
      ptr := Malloc(n);
      if ptr != 0 {
        ClearGrant(ptr, n, bs, m0);
      }
    }

    /** Facts about the block that a malloc of `n` bytes just handed out at `ptr`. */
    ghost predicate Granted(bs: seq<Block>, n: u32, ptr: u32)
      reads this
    {
      && Sound(bs, size) && blocks == AfterMalloc(bs, n)
      && ptr != 0 && ptr == Address(MallocResult(bs, n))
    }

    /** The granted block, its room, and its separation from the blocks allocated before. */
    lemma GrantFacts(bs: seq<Block>, n: u32, ptr: u32) returns (i: nat)
      requires Granted(bs, n, ptr) && Sound(blocks, size)
      ensures i < |blocks| && blocks[i].used && ptr == start + blocks[i].Payload()
      ensures 0 <= blocks[i].Payload() + Rounded(n) <= blocks[i].End() <= size
      ensures forall b :: b in bs && b.used ==> b in blocks && Disjoint(blocks[i], b) && b != blocks[i]
    {
      MallocPlacement(bs, size, n);
      i := IndexOf(bs, MallocResult(bs, n));
      InHeap(blocks, size, i);
      forall b | b in bs && b.used
        ensures b in blocks && Disjoint(blocks[i], b) && b != blocks[i]
      {
        var k :| 0 <= k < |bs| && bs[k] == b;
        assert bs[k] in blocks;
        var j :| 0 <= j < |blocks| && blocks[j] == b;
        if k < i { Ordered(bs, size, k, i); } else { Ordered(bs, size, i, k); }
      }
    }

    /** The clearing loop of heap_calloc. */
    method ClearGrant(ptr: u32, n: u32, ghost bs: seq<Block>, ghost m0: seq<byte>)
      requires Valid() && Granted(bs, n, ptr) && SamePayloads(m0, mem[..], bs)
      modifies mem
      ensures Valid() && SamePayloads(m0, mem[..], bs)
      ensures n <= MAX_REQUEST ==> Cleared(mem[..], Offset(ptr), n)
    {
      hide Get32;
      ghost var m := mem[..];
      ghost var i := GrantFacts(bs, n, ptr);
      var w := Words(n);
      ClearWords(mem, ptr - start, w);
      PayloadFrame(m, mem[..], blocks, size, i);
      OthersSame(m0, m, mem[..], bs, blocks, i);
    }

    /** What free and realloc can be handed: NULL, the payload of a block, or a pointer the magic word turns away. */
    ghost predicate Target(ptr: u32)
      reads this, mem
    {
      || ptr == 0
      || Names(ptr)
      || (start + HEADER <= ptr <= start + mem.Length && Get32(mem[..], ptr - start - HEADER) != MAGIC + 1)
    }

    /** `ptr` is the payload of a block before the end marker. */
    ghost predicate Names(ptr: u32)
      reads this
    {
      exists i :: 0 <= i < |blocks| - 1 && ptr == start + blocks[i].Payload()
    }

    /** A pointer that the magic word turns away is no allocated block's. */
    lemma TurnedAway(ptr: u32)
      requires Valid() && start + HEADER <= ptr <= start + mem.Length
      requires Get32(mem[..], ptr - start - HEADER) != MAGIC + 1
      ensures !Allocated(blocks, Offset(ptr)) && AfterFree(blocks, Offset(ptr)) == blocks
    {
      var i := IndexOf(blocks, Offset(ptr));
      if i < |blocks| {
        assert HeaderOf(mem[..], blocks[i]);
      }
    }

    /** heap_realloc: allocate, copy whole words from the last one down, release the old block. */
    method Realloc(ptr: u32, request: u32) returns (pnew: u32)
      requires Valid() && Target(ptr) && !(ptr == 0 && request == 0)
      requires ptr == 0 || request <= MAX_REQUEST || MallocResult(blocks, request) == 0
      modifies this, mem
      ensures Valid()
      ensures blocks == Step(old(blocks), Request.Realloc(Offset(ptr), request))
      ensures pnew == Address(Result(old(blocks), Request.Realloc(Offset(ptr), request)))
      ensures SamePayloads(old(mem[..]), mem[..], blocks) || pnew != 0
      ensures SamePayloads(old(mem[..]), mem[..], old(blocks)) || pnew == 0
      ensures ptr != 0 && request != 0 && pnew == 0 ==> mem[..] == old(mem[..]) && blocks == old(blocks)
      ensures ptr != 0 && Live(old(blocks), Offset(ptr)) && (pnew != 0 || request == 0) ==>
                !Live(blocks, Offset(ptr)) && Replaced(old(blocks), blocks, Offset(ptr), Offset(pnew))
      ensures pnew != 0 && request <= MAX_REQUEST ==>
                start + 8 <= pnew && !Live(old(blocks), Offset(pnew)) && Holds(blocks, Offset(pnew), request)
      ensures ptr != 0 && pnew != 0 ==> IndexOf(old(blocks), Offset(ptr)) < |old(blocks)|
      ensures ptr != 0 && pnew != 0 ==>
                SamePrefix(old(mem[..]), Offset(ptr), mem[..], Offset(pnew),
                           Least(request, old(blocks)[IndexOf(old(blocks), Offset(ptr))].size))
      ensures ptr != 0 && pnew != 0 ==>
                forall j: nat :: j < request && j < old(blocks)[IndexOf(old(blocks), Offset(ptr))].size ==>
                  ByteMoved(old(mem[..]), Offset(ptr), mem[..], Offset(pnew), j)
    {
      hide Get32;
      hide SamePrefix;
      hide SamePayloads;
      hide AfterMalloc;
      hide AfterFree;
      hide MallocResult;
      hide Live;
      hide Holds;
      hide Replaced;
      if request == 0 {
        ReallocLaw(ptr, request);
        Free(ptr);
        return 0;
      }
      MallocFailure(blocks, request);
      SamePayloadsRefl(mem[..], blocks);
      ReallocLaw(ptr, request);
      if ptr != 0 { TargetInside(ptr); }
      if ptr == 0 {
        pnew := Malloc(request);
        return;
      }
      ghost var m0, bs := mem[..], blocks;
      var magic := Load32(mem, ptr - start - HEADER);
      if magic != MAGIC + 1 {
        TurnedAway(ptr);
        return 0;
      }
      ghost var k := BlockAt(ptr);
      pnew := Malloc(request);
      if pnew != 0 {
        ReplaceBlock(ptr, pnew, request, bs, m0, k);
        PrefixBytes(m0, Offset(ptr), mem[..], Offset(pnew), request, bs[k].size);
      }
    }

    /** What the block list says of a malloc. */
    lemma MallocLaw(request: u32)
      requires Valid()
      ensures var q, cs := MallocResult(blocks, request), AfterMalloc(blocks, request);
              && (q != 0 ==> exists k :: 0 <= k < |cs| && cs[k].used && q == cs[k].at + 8)
              && (q != 0 && request <= MAX_REQUEST ==>
                    q >= 8 && !Live(blocks, q) && Holds(cs, q, request) && Replaced(blocks, cs, 0, q))
    {
      hide AfterMalloc, MallocResult;
      if MallocResult(blocks, request) != 0 {
        MallocReplaces(blocks, size, request);
        var cs := AfterMalloc(blocks, request);
        var k :| 0 <= k < |cs| && cs[k].used && cs[k].Payload() == MallocResult(blocks, request);
        HoldsLess(AfterMalloc(blocks, request), MallocResult(blocks, request), Rounded(request), request);
      }
    }

    /** What the block list says of a free. */
    lemma FreeLaw(ptr: u32)
      requires Valid() && Target(ptr)
      ensures var cs := AfterFree(blocks, Offset(ptr));
              ptr != 0 && Live(blocks, Offset(ptr)) ==>
                !Live(cs, Offset(ptr)) && Replaced(blocks, cs, Offset(ptr), 0)
    {
      hide AfterFree;
      if ptr != 0 && Live(blocks, Offset(ptr)) {
        LiveIsAllocated(blocks, size, Offset(ptr));
        TargetFreeable(ptr);
        LiveReleased(blocks, size, Offset(ptr));
      }
    }

    /** What the block list says of a realloc: the old pointer dies, the new one holds the request, the rest stays. */
    lemma ReallocLaw(ptr: u32, request: u32)
      requires Valid() && Target(ptr)
      ensures var r := Request.Realloc(Offset(ptr), request);
              var q, cs := Result(blocks, r), Step(blocks, r);
              && (ptr != 0 && Live(blocks, Offset(ptr)) && (q != 0 || request == 0) ==>
                    !Live(cs, Offset(ptr)) && Replaced(blocks, cs, Offset(ptr), q))
              && (q != 0 && request <= MAX_REQUEST ==> q >= 8 && !Live(blocks, q) && Holds(cs, q, request))
    {
      hide AfterMalloc, AfterFree, MallocResult;
      if ptr == 0 {
        if request != 0 && MallocResult(blocks, request) != 0 {
          MallocReplaces(blocks, size, request);
          HoldsLess(AfterMalloc(blocks, request), MallocResult(blocks, request), Rounded(request), request);
        }
      } else if Allocated(blocks, Offset(ptr)) {
        TargetFreeable(ptr);
        ReallocMoves(blocks, size, Offset(ptr), request);
        var r := Request.Realloc(Offset(ptr), request);
        if Result(blocks, r) != 0 { HoldsLess(Step(blocks, r), Result(blocks, r), Rounded(request), request); }
      } else {
        assert !Live(blocks, Offset(ptr)) by {
          if Live(blocks, Offset(ptr)) { LiveIsAllocated(blocks, size, Offset(ptr)); }
        }
      }
    }

    lemma TargetFreeable(ptr: u32)
      requires Valid() && Target(ptr) && ptr != 0 && Allocated(blocks, Offset(ptr))
      ensures Freeable(blocks, Offset(ptr))
    {
      TargetInside(ptr);
      var k := IndexOf(blocks, Offset(ptr));
      assert HeaderOf(mem[..], blocks[k]);
      var i := BlockAt(ptr);
    }

    lemma HoldsLess(bs: seq<Block>, q: nat, n: nat, m: nat)
      requires Holds(bs, q, n)
      ensures m <= n ==> Holds(bs, q, m)
    {
    }

    /** The in-use magic word in front of `ptr` is that of its block. */
    lemma BlockAt(ptr: u32) returns (k: nat)
      requires Valid() && Target(ptr) && start + HEADER <= ptr <= start + mem.Length
      requires Get32(mem[..], ptr - start - HEADER) == MAGIC + 1
      ensures k < |blocks| - 1 && blocks[k].used && ptr == start + blocks[k].Payload()
      ensures IndexOf(blocks, Offset(ptr)) == k
    {
      k :| 0 <= k < |blocks| - 1 && ptr == start + blocks[k].Payload();
      IndexOfUnique(blocks, size, k);
      assert HeaderOf(mem[..], blocks[k]);
    }

    /** The header in front of a pointer that free or realloc may be handed lies in memory. */
    lemma TargetInside(ptr: u32)
      requires Valid() && Target(ptr) && ptr != 0
      ensures start + HEADER <= ptr <= start + mem.Length
    {
      if Names(ptr) {
        var i :| 0 <= i < |blocks| - 1 && ptr == start + blocks[i].Payload();
        InHeap(blocks, size, i);
      }
    }

    /** The success path of heap_realloc after its allocation: copy, then release block `k`. */
    method ReplaceBlock(ptr: u32, pnew: u32, request: u32, ghost bs: seq<Block>, ghost m0: seq<byte>, ghost k: nat)
      requires Valid() && Granted(bs, request, pnew) && SamePayloads(m0, mem[..], bs)
      requires k < |bs| - 1 && bs[k].used && ptr == start + bs[k].Payload() && request <= MAX_REQUEST
      modifies this, mem
      ensures Valid()
      ensures blocks == AfterFree(old(blocks), Offset(ptr))
      ensures SamePayloads(m0, mem[..], bs)
      ensures SamePrefix(m0, Offset(ptr), mem[..], Offset(pnew), Least(request, bs[k].size))
    {
      hide Get32;
      hide SamePrefix;
      hide SamePayloads;
      hide AfterMalloc;
      hide AfterFree;
      hide MallocResult;
      CopyGrant(ptr, pnew, request, bs, m0, k);
      ghost var m := mem[..];
      ghost var i := GrantFacts(bs, request, pnew);
      ghost var g := blocks[i];
      assert Disjoint(g, bs[k]);
      ghost var o := OldBlock(bs, blocks, size, k);
      Free(ptr);
      HeaderChange(m, mem[..], bs, size, k);
      PayloadsCompose(m0, m, mem[..], bs);
      PrefixKept(m0, Offset(ptr), m, mem[..], Offset(pnew), Least(request, bs[k].size), bs[k].at, bs[k].Payload());
    }

    /** The copying part of heap_realloc: `k` is the old block, still allocated. */
    method CopyGrant(ptr: u32, pnew: u32, request: u32, ghost bs: seq<Block>, ghost m0: seq<byte>, ghost k: nat)
      requires Valid() && Granted(bs, request, pnew) && SamePayloads(m0, mem[..], bs)
      requires k < |bs| - 1 && bs[k].used && ptr == start + bs[k].Payload() && request <= MAX_REQUEST
      modifies mem
      ensures Valid() && SamePayloads(m0, mem[..], bs)
      ensures SamePrefix(m0, Offset(ptr), mem[..], Offset(pnew), Least(request, bs[k].size))
    {
      hide Get32;
      hide SamePrefix;
      hide SamePayloads;
      hide AfterMalloc;
      hide MallocResult;
      hide ChangedOnly;
      hide HeaderOf;
      hide Tiled;
      hide WordsOver;
      ghost var m := mem[..];
      ghost var i := GrantFacts(bs, request, pnew);
      assert bs[k] in blocks;
      ghost var o := OldBlock(bs, blocks, size, k);
      assert HeaderOf(m, blocks[o]);
      var s := FieldAt(ptr - start - HEADER, 4, bs[k]);
      var n: nat := if request > s then s else request;
      assert Offset(ptr) == bs[k].Payload() && Offset(pnew) == blocks[i].Payload() && n == Least(request, bs[k].size);
      var w := WordsOver(n);
      WordsFit(n, Rounded(request));
      var d, q := pnew - start, ptr - start;
      assert d == blocks[i].Payload() && q == bs[k].Payload();
      CopyWords(mem, d, q, w);
      PrefixCopied(m0, m, mem[..], bs, bs[k], d, n, 4 * w);
      GrantFilled(m0, m, mem[..], bs, blocks, size, i, 4 * w);
    }

    /** One request of a client, by offset instead of address. */
    method Perform(r: Request)
      requires Valid() && WellFormed(blocks, size) && Admissible(blocks, r)
      modifies this, mem
      ensures Valid() && WellFormed(blocks, size)
      ensures blocks == Step(old(blocks), r)
      ensures forall b :: b in old(blocks) && b.used && b.Payload() != GivenUp(old(blocks), r) ==>
                b in blocks && SamePayload(old(mem[..]), mem[..], b)
    {
      hide Get32;
      hide HeaderOf;
      hide AfterMalloc;
      hide AfterFree;
      hide MallocResult;
      hide SamePrefix;
      hide Tiled;
      ghost var m, bs := mem[..], blocks;
      StepKeeps(blocks, size, r);
      match r {
        case Malloc(n) => var _ := Malloc(n);
        case Calloc(nmemb, each) => var _ := Calloc(nmemb, each);
        case Free(p) => LiveNamed(p); Free(Address(p));
        case Realloc(p, n) => LiveNamed(p); var _ := Realloc(Address(p), n);
      }
      assert SamePayloads(m, mem[..], bs) || SamePayloads(m, mem[..], blocks);
      forall b | b in bs && b.used && b.Payload() != GivenUp(bs, r)
        ensures b in blocks && SamePayload(m, mem[..], b)
      {
        PayloadOf(m, mem[..], if SamePayloads(m, mem[..], bs) then bs else blocks, size, b);
      }
    }

    /** A live payload offset has an address that names its block. */
    lemma LiveNamed(p: nat)
      requires Valid() && (p == 0 || Live(blocks, p))
      ensures 0 <= Address(p) < TWO32 && Target(Address(p)) && Offset(Address(p)) == p
    {
      if p != 0 {
        var i :| 0 <= i < |blocks| && blocks[i].used && blocks[i].size > 0 && blocks[i].Payload() == p;
        InHeap(blocks, size, i);
        assert Names(Address(p));
      }
    }

    /** A client stores a byte inside its block: the heap and the bytes of every other block are as before. */
    method ClientWrite(ghost b: Block, a: nat, v: byte)
      requires Valid() && b in blocks && b.used && b.Payload() <= a < b.End()
      modifies mem
      ensures Valid() && a < mem.Length && mem[..] == old(mem[..])[a := v]
      ensures forall c :: c in blocks && c.used && c != b ==> SamePayload(old(mem[..]), mem[..], c)
    {
      hide Get32;
      ghost var i :| 0 <= i < |blocks| && blocks[i] == b;
      InHeap(blocks, size, i);
      ghost var m := mem[..];
      mem[a] := v;
      PayloadFrame(m, mem[..], blocks, size, i);
      forall c | c in blocks && c.used && c != b
        ensures SamePayload(m, mem[..], c)
      {
        var j :| 0 <= j < |blocks| && blocks[j] == c;
        InHeap(blocks, size, j);
      }
    }

    /**
     A run of requests over one memory: the blocks are those of the run on block lists, and a block that
     no request gives up keeps its place, its size and every byte of its payload.
     */
    method Serve(rs: seq<Request>)
      requires Valid() && WellFormed(blocks, size) && AdmissibleRun(blocks, rs)
      modifies this, mem
      ensures Valid() && WellFormed(blocks, size)
      ensures blocks == Run(old(blocks), rs)
      ensures forall b :: b in old(blocks) && b.used && NeverGivenUp(old(blocks), rs, b.Payload()) ==>
                b in blocks && SamePayload(old(mem[..]), mem[..], b)
      decreases |rs|
    {
      hide SamePayload;
      hide WellFormed;
      hide HeaderOf;
      hide Step;
      hide GivenUp;
      hide Admissible;
      ghost var m0, bs := mem[..], blocks;
      if rs == [] {
        SamePayloadRefl(mem[..], blocks, size);
        return;
      }
      Perform(rs[0]);
      ghost var m := mem[..];
      Serve(rs[1..]);
      forall b | b in bs && b.used && NeverGivenUp(bs, rs, b.Payload())
        ensures b in blocks && SamePayload(m0, mem[..], b)
      {
        SamePayloadTrans(m0, m, mem[..], b);
      }
    }

    /** heap_freemem: total size of the free blocks. */
    method FreeMem() returns (avail: u32)
      requires Valid()
      ensures avail == FreeBytes(blocks)
    {
      hide Get32;
      avail := 0;
      var p: nat := 0;
      ghost var k := 0;
      while p < size
        invariant 0 <= k <= |blocks| && p == if k < |blocks| then blocks[k].at else size
        invariant avail == FreeBytes(blocks[..k])
        decreases |blocks| - k
      {
        assert HeaderOf(mem[..], blocks[k]);
        var magic := FieldAt(p, 0, blocks[k]);
        var s := FieldAt(p, 4, blocks[k]);
        SumStep(blocks, size, k);
        if magic == MAGIC {
          avail := avail + s;
        }
        p := p + s + HEADER;
        k := k + 1;
      }
      if k < |blocks| { InHeap(blocks, size, k); }
      assert blocks[..k] == blocks;
    }

    /** heap_usedmem: total size of the allocated blocks. */
    method UsedMem() returns (used: u32)
      requires Valid()
      ensures used == UsedBytes(blocks)
    {
      hide Get32;
      used := 0;
      var p: nat := 0;
      ghost var k := 0;
      while p < size
        invariant 0 <= k <= |blocks| && p == if k < |blocks| then blocks[k].at else size
        invariant used == UsedBytes(blocks[..k])
        decreases |blocks| - k
      {
        assert HeaderOf(mem[..], blocks[k]);
        var magic := FieldAt(p, 0, blocks[k]);
        var s := FieldAt(p, 4, blocks[k]);
        SumStep(blocks, size, k);
        if magic == MAGIC + 1 {
          used := used + s;
        }
        p := p + s + HEADER;
        k := k + 1;
      }
      if k < |blocks| { InHeap(blocks, size, k); }
      assert blocks[..k] == blocks;
    }

    /** heap_free: clear the in-use bit and absorb the free blocks that follow. */
    method Free(ptr: u32)
      requires Valid() && Target(ptr)
      modifies this, mem
      ensures Valid()
      ensures blocks == AfterFree(old(blocks), Offset(ptr))
      ensures ptr == 0 || !Allocated(old(blocks), Offset(ptr)) ==> mem[..] == old(mem[..])
      ensures ptr != 0 ==> ChangedOnly(old(mem[..]), mem[..], Offset(ptr) - HEADER, Offset(ptr))
      ensures ptr != 0 && Live(old(blocks), Offset(ptr)) ==>
                !Live(blocks, Offset(ptr)) && Replaced(old(blocks), blocks, Offset(ptr), 0)
      ensures SamePayloads(old(mem[..]), mem[..], AfterFree(old(blocks), Offset(ptr)))
    {
      if ptr == 0 {
        return;
      }
      TargetInside(ptr);
      FreeLaw(ptr);
      var p: nat := ptr - start - HEADER;
      var magic := Load32(mem, p);
      if magic == MAGIC + 1 {
        ghost var k := BlockAt(ptr);
        ReleaseAt(p, k);
      } else {
        TurnedAway(ptr);
      }
    }

    /** The merging branch of heap_free, for the allocated block `k` at `p`. */
    method ReleaseAt(p: nat, ghost k: nat)
      requires Valid() && k < |blocks| - 1 && p == blocks[k].at && blocks[k].used
      modifies this, mem
      ensures Valid()
      ensures blocks == Released(old(blocks), k)
      ensures ChangedOnly(old(mem[..]), mem[..], p, p + HEADER)
      ensures SamePayloads(old(mem[..]), mem[..], Released(old(blocks), k))
    {
      hide Get32;
      ghost var m, bs := mem[..], blocks;
      ReleaseSound(bs, size, k);
      assert HeaderOf(m, bs[k]);
      StoreField(mem, p, 0, MAGIC);
      AbsorbAt(p, k, m);
      ReleaseEncoded(m, mem[..], bs, size, k);
      blocks := Released(bs, k);
    }

    /** Grows block `k` at `p`, just marked free, over the run of free blocks behind it. */
    method AbsorbAt(p: nat, ghost k: nat, ghost m: seq<byte>)
      requires size <= mem.Length && Sound(blocks, size) && Encodes(m, blocks)
      requires k < |blocks| - 1 && p == blocks[k].at
      requires ChangedOnly(m, mem[..], p, p + HEADER)
      requires HeaderOf(mem[..], blocks[k].(used := false))
      modifies mem
      ensures ChangedOnly(m, mem[..], p, p + HEADER)
      ensures HeaderOf(mem[..], Block(p, Span(blocks, k, RunEnd(blocks, k + 1)), false))
    {
      hide Get32, HeaderOf, ChangedOnly, Encodes, Sound, Tiled, RunEnd, Span;
      ghost var bs, e := blocks, RunEnd(blocks, k + 1);
      AbsorbStart(bs, size, k);
      ghost var j := k + 1;
      var s := FieldAt(p, 4, bs[k].(used := false));
      var q := p + HEADER + s;
      HeaderBehind(m, mem[..], bs, size, k, j);
      var next := FieldAt(q, 0, bs[j]);
      while q < size && next % 2 == 0
        invariant ChangedOnly(m, mem[..], p, p + HEADER)
        invariant k < j <= e && q == bs[j].at && s == Span(bs, k, j) && bs[j].End() <= size
        invariant HeaderOf(mem[..], Block(p, s, false)) && HeaderOf(mem[..], bs[j])
        invariant next == MAGIC + (if bs[j].used then 1 else 0)
        invariant RunEnd(bs, j) == e
        decreases |bs| - j
      {
        var t := FieldAt(q, 4, bs[j]);
        AbsorbBounds(bs, size, k, j);
        ghost var r := mem[..];
        StoreSize(mem, p, s + (t + HEADER), Block(p, s, false));
        s := s + (t + HEADER);
        ChangedAgain(m, r, mem[..], p, p + HEADER);
        q := t + (q + HEADER);
        j := j + 1;
        HeaderBehind(m, mem[..], bs, size, k, j);
        next := FieldAt(q, 0, bs[j]);
      }
      RunEndHere(bs, j);
    }
  }

  lemma RunEndHere(bs: seq<Block>, j: nat)
    requires j < |bs|
    ensures RunEnd(bs, j) == if bs[j].used then j else RunEnd(bs, j + 1)
  {
  }

  /** The block behind the one being released, where growing starts. */
  lemma AbsorbStart(bs: seq<Block>, len: nat, k: nat)
    requires Sound(bs, len) && k < |bs| - 1
    ensures k + 1 <= RunEnd(bs, k + 1) < |bs| && bs[k].End() == bs[k + 1].at && bs[k + 1].End() <= len
    ensures Span(bs, k, k + 1) == bs[k].size
  {
    ReleaseSound(bs, len, k);
    InHeap(bs, len, k + 1);
    assert bs[k].End() == bs[k + 1].at;
  }

  /** Rewriting a header leaves the headers behind it alone. */
  lemma HeaderBehind(m: seq<byte>, r: seq<byte>, bs: seq<Block>, len: nat, k: nat, j: nat)
    requires Sound(bs, len) && Encodes(m, bs) && k < j < |bs| && ChangedOnly(m, r, bs[k].at, bs[k].at + HEADER)
    ensures HeaderOf(r, bs[j])
  {
    hide HeaderOf;
    ChangedWithin(m, r, bs[k].at, bs[k].at + HEADER, bs[k].End());
    OtherHeader(m, r, bs, len, k, j);
  }

  /** Growing over block `j` stays inside the heap and ends where the next block starts. */
  lemma AbsorbBounds(bs: seq<Block>, len: nat, k: nat, j: nat)
    requires Sound(bs, len) && k < j < |bs| && !bs[j].used
    ensures j + 1 < |bs| && bs[j].End() == bs[j + 1].at
    ensures bs[k].at + HEADER + Span(bs, k, j + 1) == bs[j + 1].at <= bs[j + 1].End() <= len
    ensures Span(bs, k, j + 1) == Span(bs, k, j) + bs[j].size + HEADER
    ensures RunEnd(bs, j) == RunEnd(bs, j + 1) && j + 1 <= RunEnd(bs, j)
  {
    SpanEnds(bs, len, k, j + 1);
    InHeap(bs, len, j + 1);
  }
}
