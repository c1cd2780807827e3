/**
 The two-pass loader of ELF executables: extents first, then copying, zeroing and relocating the offset table.
 */
module Elf {
  import opened Bytes

  const SHT_PROGBITS: nat := 1
  const SHT_STRTAB: nat := 3
  const SHT_NOBITS: nat := 8

  /** A section header, its fields already read from the file. */
  datatype Section = Section(name: nat, kind: nat, addr: u32, offset: u32, size: u32)

  const TEXT: seq<byte> := [0x2e, 0x74, 0x65, 0x78, 0x74]
  const RODATA: seq<byte> := [0x2e, 0x72, 0x6f, 0x64, 0x61, 0x74, 0x61]
  const GOT: seq<byte> := [0x2e, 0x67, 0x6f, 0x74]
  const DATA: seq<byte> := [0x2e, 0x64, 0x61, 0x74, 0x61]
  const BSS: seq<byte> := [0x2e, 0x62, 0x73, 0x73]

  /** A file with its section headers and the file offset of the string table. */
  datatype Program = Program(file: seq<byte>, sections: seq<Section>, strtab: nat)
  {
    /** strcmp of the section's name: the bytes and then the terminator. */
    predicate Named(sec: Section, name: seq<byte>) {
      var p := strtab + sec.name;
      p + |name| < |file| && file[p..p + |name|] == name && file[p + |name|] == 0
    }

    /** Sections whose bytes are in the file and belong in the image. */
    predicate Copied(sec: Section) {
      sec.kind == SHT_PROGBITS && (Named(sec, TEXT) || Named(sec, RODATA) || Named(sec, GOT) || Named(sec, DATA))
    }

    /** Sections that take room in the image only. */
    predicate Cleared(sec: Section) {
      sec.kind == SHT_NOBITS && Named(sec, BSS)
    }

    predicate Relevant(sec: Section) {
      Copied(sec) || Cleared(sec)
    }

    /** No relevant section wraps around the address space, and those copied lie in the file, offset tables in words. */
    predicate Loadable() {
      forall sec :: sec in sections && Relevant(sec) ==>
        && sec.addr + sec.size < TWO32
        && (Copied(sec) ==> sec.offset + sec.size <= |file|)
        && (Copied(sec) && Named(sec, GOT) ==> sec.size % 4 == 0)
    }

    predicate Disjoint() {
      forall i, j :: 0 <= i < j < |sections| && Relevant(sections[i]) && Relevant(sections[j]) ==>
        || sections[i].addr + sections[i].size <= sections[j].addr
        || sections[j].addr + sections[j].size <= sections[i].addr
    }

    /** The bytes a section contributes to an image loaded `shift` above its linked address. */
    function Content(sec: Section, shift: u32): (c: seq<byte>)
      requires sec in sections && Relevant(sec) && Loadable()
      ensures |c| == sec.size
    {
      if Copied(sec) then
        var bytes := file[sec.offset..sec.offset + sec.size];
        if Named(sec, GOT) then Relocated(bytes, shift) else bytes
      else Zeros(sec.size)
    }

    /** The extents cover every relevant section and are no wider than needed. */
    predicate Extents(lo: u32, hi: u32) {
      && (forall sec :: sec in sections && Relevant(sec) ==> lo <= sec.addr && sec.addr + sec.size <= hi)
      && (lo == 0xffff_ffff || exists sec :: sec in sections && Relevant(sec) && sec.addr == lo)
      && (hi == 0 || exists sec :: sec in sections && Relevant(sec) && sec.addr + sec.size == hi)
    }

    /** A relevant section lies between the extents, and its bytes in the file. */
    lemma InExtents(lo: u32, hi: u32, sec: Section)
      requires Loadable() && Extents(lo, hi) && sec in sections && Relevant(sec)
      ensures 0 <= sec.addr - lo && sec.addr - lo + sec.size <= ImageSize(lo, hi)
      ensures Copied(sec) ==> sec.offset + sec.size <= |file|
      ensures Copied(sec) && Named(sec, GOT) ==> sec.size % 4 == 0
    {
    }

    /** The image after the first `n` sections, from memory that held `junk`. */
    function Image(lo: u32, hi: u32, imgbuf: u32, junk: seq<byte>, n: nat): (r: seq<byte>)
      requires Loadable() && Extents(lo, hi) && n <= |sections| && |junk| == ImageSize(lo, hi)
      ensures |r| == |junk|
    {
      if n == 0 then junk
      else
        var before := Image(lo, hi, imgbuf, junk, n - 1);
        if !Relevant(sections[n - 1]) then before
        else
          InExtents(lo, hi, sections[n - 1]);
          Spliced(before, sections[n - 1].addr - lo, Content(sections[n - 1], Shift(imgbuf, lo)))
    }
  }

  /** The room asked for: zero minus 0xffffffff wraps to one byte when no section is relevant. */
  function ImageSize(lo: u32, hi: u32): u32 {
    (hi - lo) % TWO32
  }

  /** How far up the image is moved. */
  function Shift(imgbuf: u32, lo: u32): u32 {
    (imgbuf - lo) % TWO32
  }

  /** One word of an offset table: zero words stay. */
  function Moved(w: u32, shift: u32): u32 {
    if w == 0 then 0 else (w + shift) % TWO32
  }

  /** An offset table with every non-zero word moved. */
  function Relocated(bytes: seq<byte>, shift: u32): (r: seq<byte>)
    ensures |r| == |bytes|
  {
    if |bytes| < 4 then bytes else Bytes32(Moved(Get32(bytes, 0), shift)) + Relocated(bytes[4..], shift)
  }

  lemma {:induction false} RelocatedAt(bytes: seq<byte>, shift: u32, k: nat)
    requires k % 4 == 0 && k + 4 <= |bytes|
    ensures Relocated(bytes, shift)[k..k + 4] == Bytes32(Moved(Get32(bytes, k), shift))
  {
    hide Get32, Bytes32, Moved, Relocated;
    RelocatedStep(bytes, shift);
    if k > 0 {
      WordBefore(k);
      RelocatedAt(bytes[4..], shift, k - 4);
      TailWord(Relocated(bytes, shift), k);
      TailWord(bytes, k);
      SameWord(bytes, k, bytes[4..], k - 4);
    }
  }

  lemma WordBefore(k: nat)
    requires k > 0 && k % 4 == 0
    ensures k >= 4 && (k - 4) % 4 == 0
  {
  }

  lemma RelocatedStep(bytes: seq<byte>, shift: u32)
    requires 4 <= |bytes|
    ensures Relocated(bytes, shift)[0..4] == Bytes32(Moved(Get32(bytes, 0), shift))
    ensures Relocated(bytes, shift)[4..] == Relocated(bytes[4..], shift)
  {
    hide Get32, Bytes32, Moved;
  }

  lemma TailWord(d: seq<byte>, k: nat)
    requires 4 <= k && k + 4 <= |d|
    ensures d[k..k + 4] == d[4..][k - 4..k]
  {
    SubSlice(d, 4, |d|, k - 4, 4);
    assert d[4..|d|] == d[4..];
  }

  lemma SubSlice(d: seq<byte>, lo: nat, hi: nat, k: nat, n: nat)
    requires lo <= hi <= |d| && lo + k + n <= hi
    ensures d[lo..hi][k..k + n] == d[lo + k..lo + k + n]
  {
    var x, y := d[lo..hi][k..k + n], d[lo + k..lo + k + n];
    forall j | 0 <= j < n ensures x[j] == y[j] {
      assert x[j] == d[lo..hi][k + j];
    }
  }

  lemma SameWord(a: seq<byte>, i: nat, b: seq<byte>, j: nat)
    requires i + 4 <= |a| && j + 4 <= |b| && a[i..i + 4] == b[j..j + 4]
    ensures Get32(a, i) == Get32(b, j)
  {
    var v, w := a[i..i + 4], b[j..j + 4];
    assert v[0] == a[i] && v[1] == a[i + 1] && v[2] == a[i + 2] && v[3] == a[i + 3];
    assert w[0] == b[j] && w[1] == b[j + 1] && w[2] == b[j + 2] && w[3] == b[j + 3];
  }

  // ---------------------------------------------------------------- the loader

  /** The string table: the last non-empty one. */
  function StringTable(sections: seq<Section>): (k: int)
    ensures -1 <= k < |sections|
    ensures k >= 0 ==> sections[k].kind == 3 && sections[k].size > 0
    ensures forall j :: k < j < |sections| ==> !(sections[j].kind == 3 && sections[j].size > 0)
  {
    if sections == [] then -1
    else
      var last := |sections| - 1;
      if sections[last].kind == SHT_STRTAB && sections[last].size > 0 then last
      else StringTable(sections[..last])
  }

  /** memcpy into the image. */
  method CopyInto(img: array<byte>, at: nat, src: seq<byte>)
    requires at + |src| <= img.Length
    modifies img
    ensures img[..] == Spliced(old(img[..]), at, src)
  {
    for i := 0 to |src|
      invariant forall j :: 0 <= j < img.Length ==> img[j] == if at <= j < at + i then src[j - at] else old(img[j])
    {
      img[at + i] := src[i];
    }
    SplicedBytes(old(img[..]), at, src);
  }

  /** One entry of the offset table. */
  method RelocateWord(img: array<byte>, a: nat, lo: u32, imgbuf: u32)
    requires a + 4 <= img.Length
    modifies img
    ensures img[..] == Spliced(old(img[..]), a, Bytes32(Moved(Get32(old(img[..]), a), Shift(imgbuf, lo))))
  {
    hide Get32, Bytes32, Put32, Moved, Shift;
    var w := Load32(img, a);
    MovedWord(w, lo, imgbuf);
    if w != 0 {
      PutSpliced(img[..], a, (w - lo + imgbuf) % TWO32);
      Store32(img, a, (w - lo + imgbuf) % TWO32);
    } else {
      ZeroWord(img[..], a);
    }
  }

  /** The loop over a global offset table in the image. */
  method Relocate(img: array<byte>, at: nat, size: nat, lo: u32, imgbuf: u32)
    requires at + size <= img.Length && size % 4 == 0
    modifies img
    ensures img[..] == Spliced(old(img[..]), at, Relocated(old(img[at..at + size]), Shift(imgbuf, lo)))
  {
    hide Get32, Bytes32, Relocated, Shift, Moved, Spliced;
    ghost var was, bytes := img[..], img[at..at + size];
    ghost var moved := Relocated(bytes, Shift(imgbuf, lo));
    var k: nat := 0;
    NothingSpliced(was, at);
    assert moved[..0] == [];
    while k < size
      invariant k % 4 == 0 && k <= size
      invariant img[..] == Spliced(was, at, moved[..k])
    {
      NextWord(was, at, bytes, Shift(imgbuf, lo), k);
      RelocateWord(img, at + k, lo, imgbuf);
      k := k + 4;
    }
    assert moved[..size] == moved;
  }

  lemma NothingSpliced(d: seq<byte>, at: nat)
    requires at <= |d|
    ensures Spliced(d, at, []) == d
  {
  }

  /** Moving the next word extends the part of the table that is done. */
  lemma NextWord(was: seq<byte>, at: nat, bytes: seq<byte>, shift: u32, k: nat)
    requires k % 4 == 0 && k + 4 <= |bytes| && at + |bytes| <= |was| && was[at..at + |bytes|] == bytes
    ensures var moved := Relocated(bytes, shift); var now := Spliced(was, at, moved[..k]);
            Spliced(now, at + k, Bytes32(Moved(Get32(now, at + k), shift))) == Spliced(was, at, moved[..k + 4])
  {
    hide Get32, Bytes32, Relocated, Moved;
    var moved := Relocated(bytes, shift);
    var now := Spliced(was, at, moved[..k]);
    SplicedBytes(was, at, moved[..k]);
    SubSlice(was, at, at + |bytes|, k, 4);
    assert now[at + k..at + k + 4] == was[at + k..at + k + 4];
    SameWord(now, at + k, bytes, k);
    RelocatedAt(bytes, shift, k);
    var word := Bytes32(Moved(Get32(bytes, k), shift));
    Extend(was, at, moved, k, word);
  }

  lemma Extend(was: seq<byte>, at: nat, moved: seq<byte>, k: nat, word: seq<byte>)
    requires k + 4 <= |moved| && at + |moved| <= |was| && |word| == 4 && moved[k..k + 4] == word
    ensures Spliced(Spliced(was, at, moved[..k]), at + k, word) == Spliced(was, at, moved[..k + 4])
  {
    hide Spliced;
    var mid := Spliced(was, at, moved[..k]);
    var r, t := Spliced(mid, at + k, word), Spliced(was, at, moved[..k + 4]);
    forall j | 0 <= j < |was| ensures r[j] == t[j] {
      SplicedAt(was, at, moved[..k], j);
      SplicedAt(mid, at + k, word, j);
      SplicedAt(was, at, moved[..k + 4], j);
      if at + k <= j < at + k + 4 {
        assert moved[k..k + 4][j - at - k] == moved[j - at];
      }
    }
  }

  lemma SplicedAt(d: seq<byte>, at: nat, buf: seq<byte>, j: nat)
    requires at + |buf| <= |d| && j < |d|
    ensures Spliced(d, at, buf)[j] == if at <= j < at + |buf| then buf[j - at] else d[j]
  {
  }

  lemma MovedWord(w: u32, lo: u32, imgbuf: u32)
    ensures Moved(w, Shift(imgbuf, lo)) == if w == 0 then 0 else (w - lo + imgbuf) % TWO32
  {
  }

  lemma PutSpliced(m: seq<byte>, a: nat, v: u32)
    requires a + 4 <= |m|
    ensures Put32(m, a, v) == Spliced(m, a, Bytes32(v))
  {
    SplicedBytes(m, a, Bytes32(v));
  }

  lemma ZeroWord(m: seq<byte>, a: nat)
    requires a + 4 <= |m| && Get32(m, a) == 0
    ensures m == Spliced(m, a, Bytes32(0))
  {
    SplicedBytes(m, a, Bytes32(0));
  }

  /** Pass 1. */
  method ComputeExtents(p: Program) returns (lo: u32, hi: u32)
    requires p.Loadable()
    ensures p.Extents(lo, hi)
  {
    hide Program.Named, Program.Copied, Program.Cleared;
    lo, hi := 0xffff_ffff, 0;
    ghost var first, last := 0, 0;
    for i := 0 to |p.sections|
      invariant forall j :: 0 <= j < i && p.Relevant(p.sections[j]) ==>
                  lo <= p.sections[j].addr && p.sections[j].addr + p.sections[j].size <= hi
      invariant lo == 0xffff_ffff || (0 <= first < i && p.Relevant(p.sections[first]) && p.sections[first].addr == lo)
      invariant hi == 0 || (0 <= last < i && p.Relevant(p.sections[last])
                            && p.sections[last].addr + p.sections[last].size == hi)
    {
      var sec := p.sections[i];
      if p.Copied(sec) || p.Cleared(sec) {
        assert p.Relevant(sec) && sec in p.sections;
        if sec.addr < lo {
          lo, first := sec.addr, i;
        }
        if (sec.addr + sec.size) % TWO32 > hi {
          hi, last := (sec.addr + sec.size) % TWO32, i;
        }
      }
    }
  }

  /** Pass 2. */
  method FillImage(p: Program, lo: u32, hi: u32, imgbuf: u32, img: array<byte>)
    requires p.Loadable() && p.Extents(lo, hi) && img.Length == ImageSize(lo, hi)
    modifies img
    ensures img[..] == p.Image(lo, hi, imgbuf, old(img[..]), |p.sections|)
  {
    hide Program.Named, Program.Relevant, Program.Loadable, Program.Extents, Program.Content;
    for i := 0 to |p.sections|
      invariant img[..] == p.Image(lo, hi, imgbuf, old(img[..]), i)
    {
      FillSection(p, p.sections[i], lo, hi, imgbuf, img);
    }
  }

  /** One section of pass 2. */
  method FillSection(p: Program, sec: Section, lo: u32, hi: u32, imgbuf: u32, img: array<byte>)
    requires p.Loadable() && p.Extents(lo, hi) && sec in p.sections && img.Length == ImageSize(lo, hi)
    modifies img
    ensures p.Relevant(sec) ==> 0 <= sec.addr - lo && sec.addr - lo + sec.size <= img.Length
    ensures img[..] == if !p.Relevant(sec) then old(img[..])
                       else Spliced(old(img[..]), sec.addr - lo, p.Content(sec, Shift(imgbuf, lo)))
  {
    hide Program.Named, Program.Loadable, Program.Extents, Relocated, Zeros, Shift;
    if p.Copied(sec) {
      p.InExtents(lo, hi, sec);
      ghost var at, bytes := sec.addr - lo, p.file[sec.offset..sec.offset + sec.size];
      ghost var was := img[..];
      CopyInto(img, sec.addr - lo, p.file[sec.offset..sec.offset + sec.size]);
      if p.Named(sec, GOT) {
        SplicedBytes(was, at, bytes);
        assert img[at..at + sec.size] == bytes;
        ghost var copied := img[..];
        Relocate(img, sec.addr - lo, sec.size, lo, imgbuf);
        SplicedTwice(was, at, bytes, Relocated(bytes, Shift(imgbuf, lo)));
      }
    } else if p.Cleared(sec) {
      p.InExtents(lo, hi, sec);
      CopyInto(img, sec.addr - lo, Zeros(sec.size));
    }
  }

  lemma SplicedTwice(d: seq<byte>, at: nat, a: seq<byte>, b: seq<byte>)
    requires |a| == |b| && at + |a| <= |d|
    ensures Spliced(Spliced(d, at, a), at, b) == Spliced(d, at, b)
  {
    SplicedBytes(d, at, a);
    SplicedBytes(Spliced(d, at, a), at, b);
    SplicedBytes(d, at, b);
  }

  datatype Status = Success | NoSection | NoMemory

  /**
   elf_load_exe after the checks of the ELF header: `imgbuf` is the address the image gets, and the two flags say
   whether there was memory for the image and for its descriptor.
   */
  method LoadExe(file: seq<byte>, sections: seq<Section>, entry: u32, imgbuf: u32, imgMemory: bool, descMemory: bool)
    returns (status: Status, img: array<byte>, len: u32, entryPoint: u32, ghost lo: u32)
    requires StringTable(sections) >= 0 ==>
               Program(file, sections, sections[StringTable(sections)].offset).Loadable()
    ensures status == if StringTable(sections) < 0 then NoSection
                      else if imgMemory && descMemory then Success else NoMemory
    ensures fresh(img)
    ensures status == Success ==>
              var p := Program(file, sections, sections[StringTable(sections)].offset);
              exists hi: u32, junk: seq<byte> ::
                && p.Extents(lo, hi) && len == img.Length == ImageSize(lo, hi) == |junk| == (hi - lo) % 0x1_0000_0000
                && entryPoint == (imgbuf + (entry - lo)) % TWO32
                && img[..] == p.Image(lo, hi, imgbuf, junk, |sections|)
  {
    hide Program.Named, Program.Relevant, Program.Loadable, Program.Extents, Program.Content, Program.Image;
    len, entryPoint, lo := 0, 0, 0;
    img := new byte[0];
    var strtab: int := -1;
    for i := 0 to |sections|
      invariant strtab == if StringTable(sections[..i]) < 0 then -1 else sections[StringTable(sections[..i])].offset
    {
      assert sections[..i + 1][..i] == sections[..i];
      if sections[i].kind == SHT_STRTAB && sections[i].size != 0 {
        strtab := sections[i].offset;
      }
    }
    assert sections[..|sections|] == sections;
    if strtab < 0 {
      status := NoSection;
      return;
    }
    var p := Program(file, sections, strtab);
    var start, end := ComputeExtents(p);
    lo := start;
    if !imgMemory || !descMemory {
      status := NoMemory;
      return;
    }
    len := (end - start) % TWO32;
    img := new byte[len];
    ghost var junk := img[..];
    FillImage(p, start, end, imgbuf, img);
    entryPoint := (imgbuf + (entry - start)) % TWO32;
    assert p.Extents(start, end) && |junk| == img.Length;
    status := Success;
  }

  // ---------------------------------------------------------------- what the image holds

  /** With disjoint sections, the byte linked at address v of a relevant section is at offset v - lo of the image. */
  lemma {:induction false} ByteInPlace(p: Program, lo: u32, hi: u32, imgbuf: u32, junk: seq<byte>,
                                       n: nat, i: nat, k: nat)
    requires p.Loadable() && p.Disjoint() && p.Extents(lo, hi) && |junk| == ImageSize(lo, hi)
    requires i < n <= |p.sections| && p.Relevant(p.sections[i]) && k < p.sections[i].size
    ensures var at := p.sections[i].addr - lo + k;
            && 0 <= at < |junk|
            && p.Image(lo, hi, imgbuf, junk, n)[at] == p.Content(p.sections[i], Shift(imgbuf, lo))[k]
  {
    hide Program.Named, Program.Relevant, Program.Loadable, Program.Extents, Program.Content, Program.Image, Shift;
    p.InExtents(lo, hi, p.sections[i]);
    var at := p.sections[i].addr - lo + k;
    ImageStep(p, lo, hi, imgbuf, junk, n, at);
    if i < n - 1 {
      ByteInPlace(p, lo, hi, imgbuf, junk, n - 1, i, k);
    }
  }

  /** What section `n` - 1 does to the byte at offset `a`. */
  lemma ImageStep(p: Program, lo: u32, hi: u32, imgbuf: u32, junk: seq<byte>, n: nat, a: nat)
    requires p.Loadable() && p.Extents(lo, hi) && a < |junk| == ImageSize(lo, hi) && 0 < n <= |p.sections|
    ensures var sec := p.sections[n - 1];
            p.Image(lo, hi, imgbuf, junk, n)[a] ==
            if p.Relevant(sec) && sec.addr - lo <= a < sec.addr - lo + sec.size
            then p.Content(sec, Shift(imgbuf, lo))[a - (sec.addr - lo)] else p.Image(lo, hi, imgbuf, junk, n - 1)[a]
  {
    hide Program.Named, Program.Relevant, Program.Loadable, Program.Extents, Program.Content, Shift, Spliced;
    if p.Relevant(p.sections[n - 1]) {
      p.InExtents(lo, hi, p.sections[n - 1]);
      SplicedBytes(p.Image(lo, hi, imgbuf, junk, n - 1), p.sections[n - 1].addr - lo,
                   p.Content(p.sections[n - 1], Shift(imgbuf, lo)));
    }
  }

  /** Bytes of the image outside every relevant section keep what the allocator left there. */
  lemma {:induction false} Gaps(p: Program, lo: u32, hi: u32, imgbuf: u32, junk: seq<byte>, n: nat, a: nat)
    requires p.Loadable() && p.Extents(lo, hi) && n <= |p.sections| && a < |junk| == ImageSize(lo, hi)
    requires forall sec :: sec in p.sections && p.Relevant(sec) ==> !(sec.addr - lo <= a < sec.addr - lo + sec.size)
    ensures p.Image(lo, hi, imgbuf, junk, n)[a] == junk[a]
  {
    hide Program.Named, Program.Relevant, Program.Loadable, Program.Extents, Program.Content, Shift, Spliced;
    if n > 0 {
      Gaps(p, lo, hi, imgbuf, junk, n - 1, a);
      ImageStep(p, lo, hi, imgbuf, junk, n, a);
    }
  }

  /** The loaded image of disjoint sections: program bytes at their linked distance from the start, .bss all zero. */
  lemma LoadedImage(p: Program, lo: u32, hi: u32, imgbuf: u32, junk: seq<byte>, sec: Section, k: nat)
    requires p.Loadable() && p.Disjoint() && p.Extents(lo, hi) && |junk| == ImageSize(lo, hi)
    requires sec in p.sections && p.Relevant(sec) && k < sec.size
    ensures 0 <= sec.addr - lo && sec.addr - lo + sec.size <= |junk|
    ensures p.Copied(sec) ==> sec.offset + sec.size <= |p.file|
    ensures var img := p.Image(lo, hi, imgbuf, junk, |p.sections|);
            && (p.Copied(sec) && !p.Named(sec, GOT) ==> img[sec.addr - lo + k] == p.file[sec.offset + k])
            && (p.Cleared(sec) ==> img[sec.addr - lo + k] == 0)
            && img[sec.addr - lo + k] == p.Content(sec, Shift(imgbuf, lo))[k]
  {
    hide Relocated, Program.Named, Program.Loadable, Program.Extents, Program.Disjoint, Shift, ImageSize, Program.Image;
    p.InExtents(lo, hi, sec);
    var i :| 0 <= i < |p.sections| && p.sections[i] == sec;
    ByteInPlace(p, lo, hi, imgbuf, junk, |p.sections|, i, k);
  }

  /**
   And in the offset table every non-zero word is moved by the distance between the image and its linked address,
   while zero words stay.
   */
  lemma LoadedTable(p: Program, lo: u32, hi: u32, imgbuf: u32, junk: seq<byte>, sec: Section, k: nat)
    requires p.Loadable() && p.Disjoint() && p.Extents(lo, hi) && |junk| == ImageSize(lo, hi)
    requires sec in p.sections && p.Copied(sec) && p.Named(sec, GOT) && k % 4 == 0 && k + 4 <= sec.size
    ensures 0 <= sec.addr - lo && sec.addr - lo + sec.size <= |junk| && sec.offset + sec.size <= |p.file|
    ensures var img := p.Image(lo, hi, imgbuf, junk, |p.sections|);
            var w := Get32(p.file, sec.offset + k);
            Get32(img, sec.addr - lo + k) == if w == 0 then 0 else (w - lo + imgbuf) % TWO32
  {
    hide Get32, Bytes32, Moved, Relocated, Program.Named, Program.Loadable, Program.Extents, Program.Disjoint, Shift,
         ImageSize, Program.Image;
    p.InExtents(lo, hi, sec);
    var shift := Shift(imgbuf, lo);
    var bytes := p.file[sec.offset..sec.offset + sec.size];
    var at, moved := sec.addr - lo, Relocated(bytes, shift);
    var img := p.Image(lo, hi, imgbuf, junk, |p.sections|);
    forall j | k <= j < k + 4 ensures img[at + j] == moved[j] {
      LoadedImage(p, lo, hi, imgbuf, junk, sec, j);
    }
    assert img[at + k..at + k + 4] == moved[k..k + 4];
    RelocatedAt(bytes, shift, k);
    WordOf(img, at + k, Moved(Get32(bytes, k), shift));
    SubSlice(p.file, sec.offset, sec.offset + sec.size, k, 4);
    SameWord(p.file, sec.offset + k, bytes, k);
    MovedWord(Get32(bytes, k), lo, imgbuf);
  }

  lemma WordOf(m: seq<byte>, a: nat, v: u32)
    requires a + 4 <= |m| && m[a..a + 4] == Bytes32(v)
    ensures Get32(m, a) == v
  {
    SameWord(m, a, Bytes32(v), 0);
    assert Bytes32(v)[0..4] == Bytes32(v);
  }

  // ---------------------------------------------------------------- which sections these are

  /** From index `p` on the file has these characters and then a zero. */
  predicate Spells(file: seq<byte>, p: nat, text: string) {
    && p + |text| < |file| && file[p + |text|] == 0
    && forall k :: 0 <= k < |text| ==> file[p + k] == text[k] as int
  }

  /** The section's name in the string table. */
  predicate IsCalled(p: Program, sec: Section, text: string) {
    Spells(p.file, p.strtab + sec.name, text)
  }

  lemma NamedSpelled(p: Program, sec: Section, name: seq<byte>, text: string)
    requires |name| == |text| && forall k :: 0 <= k < |text| ==> name[k] == text[k] as int
    ensures p.Named(sec, name) <==> IsCalled(p, sec, text)
  {
    var i := p.strtab + sec.name;
    if i + |name| < |p.file| {
      var found := p.file[i..i + |name|];
      assert forall k :: 0 <= k < |name| ==> found[k] == p.file[i + k];
      if IsCalled(p, sec, text) { assert found == name; }
    }
  }

  /** The loader takes program bits called .text, .rodata, .got or .data, and space without bits called .bss. */
  lemma SectionsTaken(p: Program, sec: Section)
    ensures p.Copied(sec) <==> sec.kind == 1 && (IsCalled(p, sec, ".text") || IsCalled(p, sec, ".rodata")
                                                 || IsCalled(p, sec, ".got") || IsCalled(p, sec, ".data"))
    ensures p.Cleared(sec) <==> sec.kind == 8 && IsCalled(p, sec, ".bss")
    ensures p.Named(sec, GOT) <==> IsCalled(p, sec, ".got")
  {
    hide Program.Named, IsCalled;
    NamedSpelled(p, sec, TEXT, ".text");
    NamedSpelled(p, sec, RODATA, ".rodata");
    NamedSpelled(p, sec, GOT, ".got");
    NamedSpelled(p, sec, DATA, ".data");
    NamedSpelled(p, sec, BSS, ".bss");
  }

  /** Different names are not spelled by the same bytes. */
  lemma NamesDiffer(p: Program, sec: Section)
    ensures IsCalled(p, sec, ".got") ==>
              !IsCalled(p, sec, ".text") && !IsCalled(p, sec, ".rodata") && !IsCalled(p, sec, ".data")
  {
    hide Spells;
    var i := p.strtab + sec.name;
    if IsCalled(p, sec, ".got") {
      SecondLetter(p.file, i, ".got");
      if IsCalled(p, sec, ".text") { SecondLetter(p.file, i, ".text"); }
      if IsCalled(p, sec, ".rodata") { SecondLetter(p.file, i, ".rodata"); }
      if IsCalled(p, sec, ".data") { SecondLetter(p.file, i, ".data"); }
    }
  }

  lemma SecondLetter(file: seq<byte>, p: nat, text: string)
    requires |text| > 1 && Spells(file, p, text)
    ensures p + 1 < |file| && file[p + 1] == text[1] as int
  {
  }

  /** By kind and name: what the image of disjoint sections holds of a section that the loader takes. */
  lemma LoadedByName(p: Program, lo: u32, hi: u32, imgbuf: u32, junk: seq<byte>, sec: Section, k: nat)
    requires p.Loadable() && p.Disjoint() && p.Extents(lo, hi) && |junk| == ImageSize(lo, hi)
    requires sec in p.sections && k < sec.size
    ensures var img, at := p.Image(lo, hi, imgbuf, junk, |p.sections|), sec.addr - lo;
            && (sec.kind == 1
                && (IsCalled(p, sec, ".text") || IsCalled(p, sec, ".rodata") || IsCalled(p, sec, ".data")) ==>
                  0 <= at && at + k < |img| && sec.offset + k < |p.file| && img[at + k] == p.file[sec.offset + k])
            && (sec.kind == 8 && IsCalled(p, sec, ".bss") ==> 0 <= at && at + k < |img| && img[at + k] == 0)
            && (sec.kind == 1 && IsCalled(p, sec, ".got") && k % 4 == 0 ==>
                  && 0 <= at && at + k + 4 <= |img| && sec.offset + k + 4 <= |p.file|
                  && var w := Get32(p.file, sec.offset + k);
                     Get32(img, at + k) == if w == 0 then 0 else (w - lo + imgbuf) % TWO32)
  {
    hide IsCalled, Program.Named, Program.Copied, Program.Cleared, Program.Loadable, Program.Disjoint, Program.Extents,
         Program.Image, Get32;
    SectionsTaken(p, sec);
    NamesDiffer(p, sec);
    if p.Relevant(sec) {
      LoadedImage(p, lo, hi, imgbuf, junk, sec, k);
      if p.Copied(sec) && p.Named(sec, GOT) && k % 4 == 0 {
        WholeWord(p, sec, k);
        LoadedTable(p, lo, hi, imgbuf, junk, sec, k);
      }
    }
  }

  lemma WholeWord(p: Program, sec: Section, k: nat)
    requires p.Loadable() && sec in p.sections && p.Copied(sec) && p.Named(sec, GOT) && k % 4 == 0 && k < sec.size
    ensures k + 4 <= sec.size
  {
    hide Program.Named, Program.Copied;
    assert p.Relevant(sec) && sec.size % 4 == 0;
  }

  /** A section of any other kind or name. */
  predicate Other(p: Program, sec: Section) {
    && !(sec.kind == 1 && (IsCalled(p, sec, ".text") || IsCalled(p, sec, ".rodata")
                           || IsCalled(p, sec, ".got") || IsCalled(p, sec, ".data")))
    && !(sec.kind == 8 && IsCalled(p, sec, ".bss"))
  }

  /** It has no part in the extents, and its turn in the second pass changes nothing. */
  lemma OthersIgnored(p: Program, i: nat, lo: u32, hi: u32, imgbuf: u32, junk: seq<byte>)
    requires i < |p.sections| && Other(p, p.sections[i])
    ensures p.Extents(lo, hi) <==> p.(sections := p.sections[..i] + p.sections[i + 1..]).Extents(lo, hi)
    ensures p.Loadable() && p.Extents(lo, hi) && |junk| == ImageSize(lo, hi) ==>
              p.Image(lo, hi, imgbuf, junk, i + 1) == p.Image(lo, hi, imgbuf, junk, i)
  {
    hide IsCalled, Program.Named, Program.Copied, Program.Cleared, Program.Loadable;
    SectionsTaken(p, p.sections[i]);
    assert !p.Relevant(p.sections[i]);
    SameTaken(p, p.sections[..i] + p.sections[i + 1..]);
    ExtentsWithout(p, i, lo, hi);
  }

  /** Which sections are taken does not depend on the other headers. */
  lemma SameTaken(p: Program, sections: seq<Section>)
    ensures forall sec :: p.(sections := sections).Relevant(sec) <==> p.Relevant(sec)
  {
  }

  lemma ExtentsWithout(p: Program, i: nat, lo: u32, hi: u32)
    requires i < |p.sections| && !p.Relevant(p.sections[i])
    ensures p.Extents(lo, hi) <==> p.(sections := p.sections[..i] + p.sections[i + 1..]).Extents(lo, hi)
  {
    hide Program.Named, Program.Copied, Program.Cleared, Program.Relevant;
    var rest := p.sections[..i] + p.sections[i + 1..];
    SameTaken(p, rest);
    assert forall sec :: sec in p.sections <==> sec == p.sections[i] || sec in rest;
  }
}
