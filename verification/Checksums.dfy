/**
 Checksums: Fletcher's with deferred reduction, and the Internet checksum with a single fold.
 */
module Checksums {
  import opened Bytes

  // ---------------------------------------------------------------- fletcher16

  /** Sum of the bytes. */
  function ByteSum(s: seq<byte>): nat {
    if s == [] then 0 else ByteSum(s[..|s| - 1]) + s[|s| - 1]
  }

  /** Sum of the sums of all non-empty prefixes. */
  function PrefixSums(s: seq<byte>): nat {
    if s == [] then 0 else PrefixSums(s[..|s| - 1]) + ByteSum(s)
  }

  predicate Congruent(a: int, b: int) { (a - b) % 255 == 0 }

  /** The simple definition: the representative in 1 .. 255 of a sum modulo 255. */
  function Residue(n: nat): (r: byte)
    ensures 1 <= r <= 255 && Congruent(r, n)
  {
    (n + 254) % 255 + 1
  }

  /** One folding step: low byte plus high byte. */
  function Fold8(x: u16): (r: u16)
    ensures r <= 510 && (x > 0 ==> r > 0) && Congruent(r, x)
    ensures x <= 510 ==> r <= 255
  {
    var r := x % 256 + x / 256;
    assert x - r == 255 * (x / 256);
    r
  }

  lemma ResidueUnique(r: int, n: nat)
    requires 1 <= r <= 255 && Congruent(r, n)
    ensures r == Residue(n)
  {
    hide Congruent, Residue;
    var a := Quotient(r, n);
    var b := Quotient(Residue(n), n);
    assert r - Residue(n) == 255 * (a - b);
  }

  lemma Quotient(a: int, b: int) returns (q: int)
    requires Congruent(a, b)
    ensures a - b == 255 * q
  {
    q := (a - b) / 255;
  }

  lemma SumPush(s: seq<byte>, k: nat)
    requires k < |s|
    ensures ByteSum(s[..k + 1]) == ByteSum(s[..k]) + s[k]
    ensures PrefixSums(s[..k + 1]) == PrefixSums(s[..k]) + ByteSum(s[..k + 1])
  {
    assert s[..k + 1][..k] == s[..k];
  }

  lemma CongruentAdd(a: int, b: int, c: int, d: int)
    requires Congruent(a, b) && Congruent(c, d)
    ensures Congruent(a + c, b + d)
  {
  }

  lemma CongruentSelf(a: int)
    ensures Congruent(a, a)
  {
  }

  lemma CongruentTrans(a: int, b: int, c: int)
    requires Congruent(a, b) && Congruent(b, c)
    ensures Congruent(a, c)
  {
  }

  /** One block of at most 20 bytes without reduction: both sums stay inside 16 bits. */
  method AddBlock(buf: seq<byte>, from: nat, count: nat, s1: u16, s2: u16) returns (sum1: u16, sum2: u16)
    requires 0 < count <= 20 && from + count <= |buf| && 0 < s1 <= 510 && 0 < s2 <= 510
    requires Congruent(s1, ByteSum(buf[..from])) && Congruent(s2, PrefixSums(buf[..from]))
    ensures sum1 > 0 && sum2 > 0
    ensures Congruent(sum1, ByteSum(buf[..from + count])) && Congruent(sum2, PrefixSums(buf[..from + count]))
  {
    hide Congruent, Triangle, ByteSum, PrefixSums;
    sum1, sum2 := s1, s2;
    var t: nat := 0;
    TriangleStep(0);
    while t < count
      invariant t <= count
      invariant 0 < sum1 <= 510 + 255 * t
      invariant 0 < sum2 <= 510 * (t + 1) + 255 * Triangle(t)
      invariant Congruent(sum1, ByteSum(buf[..from + t])) && Congruent(sum2, PrefixSums(buf[..from + t]))
    {
      SumPush(buf, from + t);
      CongruentSelf(buf[from + t]);
      CongruentAdd(sum1, ByteSum(buf[..from + t]), buf[from + t], buf[from + t]);
      TriangleStep(t);
      TriangleBound(t + 1);
      CongruentAdd(sum2, PrefixSums(buf[..from + t]), sum1 + buf[from + t], ByteSum(buf[..from + t + 1]));
      sum1 := sum1 + buf[from + t];
      sum2 := sum2 + sum1;
      t := t + 1;
    }
  }

  function Triangle(t: nat): nat {
    if t == 0 then 0 else Triangle(t - 1) + t
  }

  lemma TriangleStep(t: nat)
    ensures Triangle(0) == 0 && Triangle(t + 1) == Triangle(t) + t + 1
  {
  }

  lemma {:induction false} TriangleClosed(t: nat)
    ensures 2 * Triangle(t) == t * (t + 1)
  {
    if t > 0 {
      TriangleClosed(t - 1);
      assert (t - 1) * t + 2 * t == t * (t + 1);
    }
  }

  lemma TriangleBound(t: nat)
    requires t <= 20
    ensures Triangle(t) <= 210
  {
    TriangleClosed(t);
    assert (20 - t) * (t + 21) == 420 - t * (t + 1);
    assert (20 - t) * (t + 21) >= 0;
  }

  /** fletcher16: both bytes are the residues of the plain sums. */
  method Fletcher16(buf: seq<byte>) returns (r: u16)
    ensures r == Residue(PrefixSums(buf)) * 256 + Residue(ByteSum(buf))
  {
    var sum1: u16, sum2: u16 := 0xff, 0xff;
    var done: nat := 0;
    while done < |buf|
      invariant done <= |buf|
      invariant 0 < sum1 <= 510 && 0 < sum2 <= 510
      invariant Congruent(sum1, ByteSum(buf[..done])) && Congruent(sum2, PrefixSums(buf[..done]))
    {
      var tlen := if |buf| - done > 20 then 20 else |buf| - done;
      var a, b := AddBlock(buf, done, tlen, sum1, sum2);
      done := done + tlen;
      CongruentTrans(Fold8(a), a, ByteSum(buf[..done]));
      CongruentTrans(Fold8(b), b, PrefixSums(buf[..done]));
      sum1, sum2 := Fold8(a), Fold8(b);
    }
    assert buf[..done] == buf;
    CongruentTrans(Fold8(sum1), sum1, ByteSum(buf));
    CongruentTrans(Fold8(sum2), sum2, PrefixSums(buf));
    sum1, sum2 := Fold8(sum1), Fold8(sum2);
    ResidueUnique(sum1, ByteSum(buf));
    ResidueUnique(sum2, PrefixSums(buf));
    r := sum2 * 256 + sum1;
  }

  /** The sums of two stretches: the first one counts again for every byte behind it. */
  lemma {:induction false} SumsSplit(a: seq<byte>, b: seq<byte>)
    ensures ByteSum(a + b) == ByteSum(a) + ByteSum(b)
    ensures PrefixSums(a + b) == PrefixSums(a) + |b| * ByteSum(a) + PrefixSums(b)
    decreases |b|
  {
    hide ByteSum, PrefixSums;
    if b == [] {
      assert a + b == a;
      NoSums();
    } else {
      var n := |b| - 1;
      SumsSplit(a, b[..n]);
      assert (a + b)[..|a| + n] == a + b[..n] && (a + b)[..|a| + n + 1] == a + b && b[..n + 1] == b;
      SumPush(a + b, |a| + n);
      SumPush(b, n);
      assert (n + 1) * ByteSum(a) == n * ByteSum(a) + ByteSum(a);
    }
  }

  lemma NoSums()
    ensures ByteSum([]) == PrefixSums([]) == 0
  {
  }

  lemma SumsOne(x: byte)
    ensures ByteSum([x]) == PrefixSums([x]) == x
  {
    assert [x][..0] == [];
  }

  lemma SameResidue(n: nat, m: nat)
    ensures Residue(n) == Residue(m) <==> Congruent(n, m)
  {
    hide Residue;
    var a := Quotient(Residue(n), n);
    var b := Quotient(Residue(m), m);
    if Residue(n) == Residue(m) {
      Multiple(b - a);
    } else if Congruent(n, m) {
      CongruentTrans(Residue(n), n, m);
      ResidueUnique(Residue(n), m);
    }
  }

  lemma Multiple(q: int)
    ensures 255 * q % 255 == 0
  {
  }

  /** Bytes that differ by nothing or by 255. */
  lemma CloseBytes(base: int, x: byte, y: byte)
    ensures Congruent(base + x, base + y) <==> x == y || {x, y} == {0, 255}
  {
  }

  /** A changed byte changes the first sum, unless the two bytes are 0 and 255. */
  lemma ChangeDetected(a: seq<byte>, x: byte, y: byte, b: seq<byte>)
    ensures Residue(ByteSum(a + [x] + b)) == Residue(ByteSum(a + [y] + b)) <==> x == y || {x, y} == {0, 255}
  {
    hide ByteSum, PrefixSums, Residue, Congruent;
    CloseBytes(ByteSum(a) + ByteSum(b), x, y);
    SumsSplit(a + [x], b);
    SumsSplit(a + [y], b);
    SumsSplit(a, [x]);
    SumsSplit(a, [y]);
    SumsOne(x);
    SumsOne(y);
    SameResidue(ByteSum(a + [x] + b), ByteSum(a + [y] + b));
  }

  /** Exchanging neighbours leaves the first sum, and changes the second unless they are equal, or 0 and 255. */
  lemma SwapDetected(a: seq<byte>, x: byte, y: byte, b: seq<byte>)
    ensures ByteSum(a + [x, y] + b) == ByteSum(a + [y, x] + b)
    ensures Residue(PrefixSums(a + [x, y] + b)) == Residue(PrefixSums(a + [y, x] + b)) <==>
            x == y || {x, y} == {0, 255}
  {
    hide ByteSum, PrefixSums, Residue, Congruent;
    PairSums(a, x, y, b);
    PairSums(a, y, x, b);
    assert |b| * (ByteSum(a) + x + y) == |b| * (ByteSum(a) + y + x);
    var rest := PrefixSums(a) + 2 * ByteSum(a) + |b| * (ByteSum(a) + x + y) + PrefixSums(b);
    CloseBytes(rest + x + y, x, y);
    SameResidue(PrefixSums(a + [x, y] + b), PrefixSums(a + [y, x] + b));
  }

  lemma PairSums(a: seq<byte>, x: byte, y: byte, b: seq<byte>)
    ensures ByteSum(a + [x, y] + b) == ByteSum(a) + x + y + ByteSum(b)
    ensures PrefixSums(a + [x, y] + b) ==
            PrefixSums(a) + 2 * ByteSum(a) + 2 * x + y + |b| * (ByteSum(a) + x + y) + PrefixSums(b)
  {
    hide ByteSum, PrefixSums;
    SumsSplit(a + [x, y], b);
    SumsSplit(a, [x, y]);
    SumsSplit([x], [y]);
    SumsOne(x);
    SumsOne(y);
    assert [x] + [y] == [x, y];
  }

  /** The well-known example: the letters abcde give 0xC8F0. */
  lemma LettersExample()
    ensures var s: seq<byte> := [97, 98, 99, 100, 101]; Residue(PrefixSums(s)) * 256 + Residue(ByteSum(s)) == 0xC8F0
  {
    var s: seq<byte> := [97, 98, 99, 100, 101];
    SumPush(s, 0);
    SumPush(s, 1);
    SumPush(s, 2);
    SumPush(s, 3);
    SumPush(s, 4);
    assert s[..0] == [] && s[..5] == s;
  }

  // ---------------------------------------------------------------- net_cksum

  /** Sum of the big-endian 16-bit words; an odd last byte is the high half of a word. */
  function WordSum(s: seq<byte>): (n: nat)
    ensures n <= 0x1_0000 * |s|
  {
    if s == [] then 0
    else if |s| == 1 then s[0] as nat * 256
    else s[0] as nat * 256 + s[1] as nat + WordSum(s[2..])
  }

  /** The one fold of the source: the low 16 bits of sum + (sum >> 16). */
  function FoldOnce(sum: u32): u16 { (sum + sum / 0x1_0000) % 0x1_0000 }

  /** The fold of section 4.1 of RFC 1071: carries are added back until none is left. */
  function FoldFully(sum: nat): (r: u16)
    decreases sum
  {
    if sum < 0x1_0000 then sum else FoldFully(sum % 0x1_0000 + sum / 0x1_0000)
  }

  /** The two halves of the sum fit one word without carry. */
  predicate HalvesFit(sum: u32) { sum % 0x1_0000 + sum / 0x1_0000 < 0x1_0000 }

  lemma FoldOnceOfHalves(sum: u32)
    ensures FoldOnce(sum) == (sum % 0x1_0000 + sum / 0x1_0000) % 0x1_0000
  {
    var h, l := sum / 0x1_0000, sum % 0x1_0000;
    assert sum + h == 0x1_0000 * h + (l + h);
  }

  /** A sum of two halves folds fully in at most one more step. */
  lemma FoldFullyOfHalves(x: nat)
    requires x <= 0x1_FFFE
    ensures FoldFully(x) == if x < 0x1_0000 then x else x - 0xFFFF
  {
    if x >= 0x1_0000 {
      assert x / 0x1_0000 == 1;
      assert x % 0x1_0000 == x - 0x1_0000;
      assert FoldFully(x - 0xFFFF) == x - 0xFFFF;
    }
  }

  /** One fold is enough exactly when adding the halves gives no carry. */
  lemma SingleFoldExact(sum: u32)
    ensures FoldOnce(sum) == FoldFully(sum) <==> HalvesFit(sum)
  {
    hide FoldOnce, FoldFully;
    var x := sum % 0x1_0000 + sum / 0x1_0000;
    FoldOnceOfHalves(sum);
    FoldFullyOfHalves(x);
    FoldFullyStep(sum);
    if x >= 0x1_0000 {
      assert x % 0x1_0000 == x - 0x1_0000;
    }
  }

  lemma FoldFullyStep(sum: nat)
    ensures FoldFully(sum) == FoldFully(sum % 0x1_0000 + sum / 0x1_0000)
  {
  }

  /** Words are two bytes, the first one high; sums of stretches of whole words add up; an odd byte is padded with 0. */
  lemma {:induction false} WordSums(s: seq<byte>, t: seq<byte>)
    ensures |s| == 2 ==> WordSum(s) == s[0] as int * 256 + s[1] as int
    ensures |s| % 2 == 0 ==> WordSum(s + t) == WordSum(s) + WordSum(t)
    ensures |s| % 2 == 1 ==> WordSum(s) == WordSum(s + [0])
    decreases |s|
  {
    if |s| >= 2 {
      WordSums(s[2..], t);
      assert (s + t)[2..] == s[2..] + t && (s + [0])[2..] == s[2..] + [0];
    } else if s == [] {
      assert s + t == t;
    } else {
      assert (s + [0])[2..] == [];
    }
  }

  /** The full fold is the sum modulo 2^16 - 1, with 0 for nothing but 0. */
  lemma {:induction false} FoldFullyResidue(sum: nat)
    ensures FoldFully(sum) % 0xFFFF == sum % 0xFFFF && (FoldFully(sum) == 0 <==> sum == 0)
    decreases sum
  {
    if sum >= 0x1_0000 {
      var x := sum % 0x1_0000 + sum / 0x1_0000;
      FoldFullyResidue(x);
      CarryBack(sum);
    }
  }

  lemma CarryBack(sum: nat)
    ensures (sum % 0x1_0000 + sum / 0x1_0000) % 0xFFFF == sum % 0xFFFF
  {
    var h, l := sum / 0x1_0000, sum % 0x1_0000;
    assert sum == 0xFFFF * h + (l + h);
  }

  /** net_cksum, as the 16 bits it returns. */
  function Checksum(s: seq<byte>): u16
    requires |s| <= 65535
  {
    SumFits(s);
    0xFFFF - FoldOnce(WordSum(s))
  }

  lemma {:induction false} SumFits(s: seq<byte>)
    ensures 2 * WordSum(s) <= 0xFFFF * (|s| + 1)
    decreases |s|
  {
    if |s| > 1 { SumFits(s[2..]); }
  }

  /** net_cksum on an aligned buffer of at most 65535 bytes: the 32-bit sum never overflows. */
  method NetCksum(buf: seq<byte>) returns (r: u16)
    requires |buf| <= 65535
    ensures r == Checksum(buf)
  {
    var sum: u32 := 0;
    var p: nat := 0;
    var x: nat := |buf| / 2;
    assert buf[0..] == buf;
    SumFits(buf);
    while x > 0
      invariant p == 2 * (|buf| / 2 - x) && x <= |buf| / 2
      invariant sum + WordSum(buf[p..]) == WordSum(buf)
    {
      assert buf[p..][2..] == buf[p + 2..];
      sum := sum + (buf[p] as nat * 256 + buf[p + 1] as nat);
      p := p + 2;
      x := x - 1;
    }
    if |buf| % 2 == 1 {
      sum := sum + buf[p] as nat * 256;
    }
    assert sum == WordSum(buf);
    r := 0xFFFF - (sum + sum / 0x1_0000) % 0x1_0000;
  }

  /** The buffer with a 16-bit field at an even offset set to `v`. */
  function WithField(s: seq<byte>, p: nat, v: u16): (r: seq<byte>)
    requires p + 2 <= |s|
    ensures |r| == |s|
  {
    s[p := v / 256][p + 1 := v % 256]
  }

  lemma {:induction false} FieldSum(s: seq<byte>, p: nat, v: u16)
    requires p % 2 == 0 && p + 2 <= |s| && s[p] == 0 && s[p + 1] == 0
    ensures WordSum(WithField(s, p, v)) == WordSum(s) + v
    decreases |s|
  {
    var r := WithField(s, p, v);
    if p == 0 {
      assert r[2..] == s[2..];
    } else {
      FieldSum(s[2..], p - 2, v);
      assert r[2..] == WithField(s[2..], p - 2, v);
    }
  }

  /**
   A buffer whose zeroed checksum field receives its checksum verifies (a second checksum gives zero)
   exactly when the halves of the first sum fit one word.
   */
  lemma ChecksumVerifies(s: seq<byte>, p: nat)
    requires |s| <= 65535 && p % 2 == 0 && p + 2 <= |s| && s[p] == 0 && s[p + 1] == 0
    ensures Checksum(WithField(s, p, Checksum(s))) == 0 <==> HalvesFit(WordSum(s))
  {
    var sum := WordSum(s);
    SumFits(s);
    FieldSum(s, p, Checksum(s));
    SumFits(WithField(s, p, Checksum(s)));
    StoredFold(sum);
  }

  lemma StoredFold(sum: u32)
    requires sum + 0xFFFF < TWO32
    ensures FoldOnce(sum + (0xFFFF - FoldOnce(sum))) == 0xFFFF <==> HalvesFit(sum)
  {
    var h, l := sum / 0x1_0000, sum % 0x1_0000;
    var c := 0xFFFF - FoldOnce(sum);
    assert sum + h == 0x1_0000 * h + (l + h);
    if l + h < 0x1_0000 {
      assert FoldOnce(sum) == l + h;
      assert (sum + c) / 0x1_0000 == h;
    } else {
      assert FoldOnce(sum) == l + h - 0x1_0000;
      assert sum + c == 0x1_0000 * (h + 1) + (0xFFFF - h);
      assert (sum + c) / 0x1_0000 == h + 1;
    }
  }

  /** A buffer whose own checksum does not verify: three words whose sum is 0x1FFFF. */
  lemma ChecksumCanFail()
    ensures var s: seq<byte> := [0, 0, 0xFF, 0xFF, 0xFF, 0xFF, 0, 1];
            Checksum(WithField(s, 0, Checksum(s))) != 0
  {
    var s: seq<byte> := [0, 0, 0xFF, 0xFF, 0xFF, 0xFF, 0, 1];
    assert s[2..] == [0xFF, 0xFF, 0xFF, 0xFF, 0, 1];
    assert s[2..][2..] == [0xFF, 0xFF, 0, 1];
    assert s[2..][2..][2..] == [0, 1];
    assert s[2..][2..][2..][2..] == [];
    assert WordSum(s[2..][2..][2..]) == 1;
    assert WordSum(s[2..][2..]) == 0x10000;
    assert WordSum(s[2..]) == 0x1FFFF;
    assert WordSum(s) == 0x1FFFF;
    ChecksumVerifies(s, 0);
  }
}
