/**
 Machine integers and big-endian words in a byte-addressed memory (the MC68010 is big-endian).
 */
module Bytes {
  const TWO32: int := 0x1_0000_0000

  /** The transfer unit of block devices. */
  const BLOCK_SIZE: nat := 512

  type byte = x: int | 0 <= x < 256
  type u16 = x: int | 0 <= x < 0x1_0000
  type u32 = x: int | 0 <= x < 0x1_0000_0000

  /** The 32-bit word whose most significant byte is at index `a`. */
  function Get32(m: seq<byte>, a: nat): (v: u32)
    requires a + 4 <= |m|
  {
    m[a] as int * 0x100_0000 + m[a + 1] as int * 0x1_0000 + m[a + 2] as int * 0x100 + m[a + 3] as int
  }

  /** The four bytes of `v`, most significant first. */
  function Bytes32(v: u32): (s: seq<byte>)
    ensures |s| == 4 && Get32(s, 0) == v
  {
    var hi, lo := v / 0x1_0000, v % 0x1_0000;
    [hi / 0x100, hi % 0x100, lo / 0x100, lo % 0x100]
  }

  /** The order of the bytes: each is the value shifted down by the bytes behind it, cut to eight bits. */
  lemma MostSignificantFirst(v: u32)
    ensures var s := Bytes32(v);
            s[0] == v / 0x100_0000 && s[1] == v / 0x1_0000 % 256 && s[2] == v / 256 % 256 && s[3] == v % 256
  {
  }

  /** `m` with the word at index `a` replaced by `v`; no other byte changes. */
  function Put32(m: seq<byte>, a: nat, v: u32): (r: seq<byte>)
    requires a + 4 <= |m|
    ensures |r| == |m|
    ensures Get32(r, a) == v
    ensures forall i :: 0 <= i < |m| && !(a <= i < a + 4) ==> r[i] == m[i]
  {
    var w := Bytes32(v);
    m[a := w[0]][a + 1 := w[1]][a + 2 := w[2]][a + 3 := w[3]]
  }

  /** Words that lie outside the changed bytes read the same. */
  lemma Get32Same(m: seq<byte>, r: seq<byte>, a: nat)
    requires a + 4 <= |m| && |r| == |m|
    requires forall i :: a <= i < a + 4 ==> r[i] == m[i]
    ensures Get32(r, a) == Get32(m, a)
  {
  }

  /** Loads a 32-bit word. */
  method Load32(mem: array<byte>, a: nat) returns (v: u32)
    requires a + 4 <= mem.Length
    ensures v == Get32(mem[..], a)
  {
    v := mem[a] as int * 0x100_0000 + mem[a + 1] as int * 0x1_0000 + mem[a + 2] as int * 0x100 + mem[a + 3] as int;
  }

  /** Stores a 32-bit word. */
  method Store32(mem: array<byte>, a: nat, v: u32)
    requires a + 4 <= mem.Length
    modifies mem
    ensures mem[..] == Put32(old(mem[..]), a, v)
  {
    var hi, lo := v / 0x1_0000, v % 0x1_0000;
    mem[a] := hi / 0x100;
    mem[a + 1] := hi % 0x100;
    mem[a + 2] := lo / 0x100;
    mem[a + 3] := lo % 0x100;
  }

  // ---------------------------------------------------------------- ranges of bytes

  function Zeros(n: nat): (z: seq<byte>)
    ensures |z| == n && forall i :: 0 <= i < n ==> z[i] == 0
  {
    seq(n, _ => 0)
  }

  /** `data` with the bytes from `offset` on replaced by `buf`: what a write to a flat byte array does. */
  function Spliced(data: seq<byte>, offset: nat, buf: seq<byte>): (r: seq<byte>)
    requires offset + |buf| <= |data|
    ensures |r| == |data|
  {
    data[..offset] + buf + data[offset + |buf|..]
  }

  lemma SplicedBytes(data: seq<byte>, offset: nat, buf: seq<byte>)
    requires offset + |buf| <= |data|
    ensures var r := Spliced(data, offset, buf);
            forall i :: 0 <= i < |data| ==> r[i] == if offset <= i < offset + |buf| then buf[i - offset] else data[i]
  {
  }
}
