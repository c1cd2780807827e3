/**
 Byte-granular file access over drivers that only transfer whole blocks, and may transfer fewer than asked.
 */
module Vfs {
  import opened Bytes

  const ENOMEM: int := 12

  /** The blocks that a byte range touches. */
  function BlocksFor(offset: nat, count: nat): nat {
    (offset % BLOCK_SIZE + count + BLOCK_SIZE - 1) / BLOCK_SIZE
  }

  predicate Aligned(offset: nat, count: nat) {
    offset % BLOCK_SIZE == 0 && count % BLOCK_SIZE == 0
  }

  /** The bytes of the range that still fit when its driver read stopped `missing` blocks early. */
  function Clipped(count: nat, missing: int): int {
    count - missing * BLOCK_SIZE
  }

  /** What the driver may answer: at most zero and nothing done, or the number of blocks it transferred. */
  predicate Answer(outcome: int, nblocks: nat) {
    outcome <= nblocks
  }

  /** A write that got back only its first block must not end earlier in its block than it starts. */
  predicate ShortReadSafe(offset: nat, count: nat, readOutcome: int) {
    !(readOutcome == 1 && 0 < (offset + count) % BLOCK_SIZE < offset % BLOCK_SIZE)
  }

  /** The count clipped by a short read stays a count exactly then. */
  lemma ShortReadExact(offset: nat, count: nat, readOutcome: int)
    requires count > 0 && 0 < readOutcome <= BlocksFor(offset, count)
    ensures ShortReadSafe(offset, count, readOutcome) <==>
            Clipped(count, BlocksFor(offset, count) - readOutcome) >= 0
  {
    LastBlock(offset, count);
  }

  /** How far a range reaches into its last block. */
  lemma LastBlock(offset: nat, count: nat)
    requires count > 0
    ensures var n, end := BlocksFor(offset, count), offset % BLOCK_SIZE + count;
            && (n - 1) * BLOCK_SIZE < end <= n * BLOCK_SIZE
            && (offset + count) % BLOCK_SIZE == if end == n * BLOCK_SIZE then 0 else end - (n - 1) * BLOCK_SIZE
  {
    var n, end := BlocksFor(offset, count), offset % BLOCK_SIZE + count;
    assert (n - 1) * BLOCK_SIZE < end <= n * BLOCK_SIZE;
    assert (offset + count) % BLOCK_SIZE == end % BLOCK_SIZE;
  }

  /** Twenty bytes across a block boundary with one of two blocks read back: -492 bytes to copy. */
  lemma ShortReadFails()
    ensures BlocksFor(500, 20) == 2 && Clipped(20, BlocksFor(500, 20) - 1) == -492 && !ShortReadSafe(500, 20, 1)
  {
  }

  /** The blocks that a write has in its buffer: what it read back, or all of them when nothing is read. */
  function ReadBack(offset: nat, count: nat, readOutcome: int): int {
    if Aligned(offset, count) then BlocksFor(offset, count) else readOutcome
  }

  /** The value that a write returns once both transfers have moved some blocks. */
  function Reported(offset: nat, count: nat, blocksRead: nat, blocksWritten: nat): int
    requires blocksRead <= BlocksFor(offset, count) && blocksWritten <= blocksRead
  {
    if Aligned(offset, count) then blocksWritten * BLOCK_SIZE
    else Clipped(count, BlocksFor(offset, count) - blocksRead) - (blocksRead - blocksWritten) * BLOCK_SIZE
  }

  /** The bytes of the buffer that reached the file. */
  function Stored(offset: nat, count: nat, blocksRead: nat, blocksWritten: nat): int
    requires blocksRead <= BlocksFor(offset, count) && blocksWritten <= blocksRead
  {
    var fit := blocksWritten * BLOCK_SIZE - offset % BLOCK_SIZE;
    var kept := Clipped(count, BlocksFor(offset, count) - blocksRead);
    if kept <= fit then kept else fit
  }

  /** The bytes of a range lie in the blocks computed for it, and in no fewer. */
  lemma BlocksCover(size: nat, offset: nat, count: nat)
    requires size % BLOCK_SIZE == 0 && count > 0 && offset + count <= size
    ensures var b, n := offset / BLOCK_SIZE, BlocksFor(offset, count);
            && n > 0 && b * BLOCK_SIZE + offset % BLOCK_SIZE == offset
            && (n - 1) * BLOCK_SIZE < offset % BLOCK_SIZE + count <= n * BLOCK_SIZE
            && (b + n) * BLOCK_SIZE == b * BLOCK_SIZE + n * BLOCK_SIZE <= size
  {
    var b, n := offset / BLOCK_SIZE, BlocksFor(offset, count);
    var m := size / BLOCK_SIZE;
    assert size == m * BLOCK_SIZE;
    assert (b + n) * BLOCK_SIZE < offset + count + BLOCK_SIZE <= (m + 1) * BLOCK_SIZE;
  }

  /** When both transfers are complete the whole range is stored and reported. */
  lemma CompleteTransfer(offset: nat, count: nat)
    requires count > 0
    ensures var n := BlocksFor(offset, count); Stored(offset, count, n, n) == count == Reported(offset, count, n, n)
  {
  }

  /**
   A write never reports more bytes than it stored; it reports exactly those it stored if and only if all the
   blocks read back were written, or the range ends on a block boundary.
   */
  lemma ReportedAgainstStored(offset: nat, count: nat, blocksRead: nat, blocksWritten: nat)
    requires count > 0 && 0 < blocksWritten <= blocksRead <= BlocksFor(offset, count)
    requires Aligned(offset, count) ==> blocksRead == BlocksFor(offset, count)
    ensures Reported(offset, count, blocksRead, blocksWritten) <= Stored(offset, count, blocksRead, blocksWritten)
    ensures Reported(offset, count, blocksRead, blocksWritten) == Stored(offset, count, blocksRead, blocksWritten) <==>
            blocksWritten == blocksRead || (offset + count) % BLOCK_SIZE == 0
  {
    LastBlock(offset, count);
  }

  /** Twenty bytes across a block boundary with only the first block written: twelve stored, -492 reported. */
  lemma ShortWriteReportsLess()
    ensures Stored(500, 20, 2, 1) == 12 && Reported(500, 20, 2, 1) == -492
  {
  }

  /** The bytes that a read returns once its driver has moved some blocks: the size counts for complete transfers. */
  function ReadCount(size: nat, offset: u32, count: nat, blocksRead: int): int {
    if blocksRead < BlocksFor(offset, count) then blocksRead * BLOCK_SIZE - offset % BLOCK_SIZE
    else if (offset + count) % TWO32 > size then size - offset
    else count
  }

  /** A complete read must not start behind the end of the file, unless the end of its range wraps to within it. */
  predicate ReadGuard(size: nat, offset: u32, count: nat) {
    offset <= size || (offset + count) % TWO32 <= size
  }

  /** The number of bytes to copy is a count exactly then. */
  lemma ReadCountExact(size: nat, offset: u32, count: nat, blocksRead: nat)
    requires 0 < blocksRead <= BlocksFor(offset, count)
    ensures ReadCount(size, offset, count, blocksRead) >= 0 <==>
            blocksRead < BlocksFor(offset, count) || ReadGuard(size, offset, count)
  {
  }

  /** Ten bytes from 1000 on of a file of 100: -900 bytes to copy. */
  lemma ReadBehindEnd()
    ensures BlocksFor(1000, 10) == 1 && ReadCount(100, 1000, 10, 1) == -900 && !ReadGuard(100, 1000, 10)
  {
  }

  /** No more bytes are returned than asked for, and no more than the blocks hold. */
  lemma ReadCountFits(size: nat, offset: u32, count: nat, blocksRead: int)
    requires 0 < blocksRead <= BlocksFor(offset, count) || blocksRead == BlocksFor(offset, count)
    requires size < TWO32 && count < 0x8000_0000
    requires blocksRead == BlocksFor(offset, count) ==> ReadGuard(size, offset, count)
    ensures 0 <= ReadCount(size, offset, count, blocksRead) <= count
    ensures offset % BLOCK_SIZE + ReadCount(size, offset, count, blocksRead) <= blocksRead * BLOCK_SIZE
  {
  }

  /**
   What a read returns ends inside the file if and only if a complete transfer's range does not wrap around 32 bits,
   or a short one stopped inside the file.
   */
  lemma ReadStaysInFile(size: nat, offset: u32, count: nat, blocksRead: nat)
    requires offset <= size < TWO32 && count < 0x8000_0000 && 0 < blocksRead <= BlocksFor(offset, count)
    ensures offset + ReadCount(size, offset, count, blocksRead) <= size <==>
            if blocksRead == BlocksFor(offset, count) then offset + count < TWO32
            else (offset / BLOCK_SIZE + blocksRead) * BLOCK_SIZE <= size
    ensures offset + count <= size ==> offset + ReadCount(size, offset, count, blocksRead) <= size
  {
  }

  /** A file of 100 bytes, read from the start with one of two blocks moved: 512 bytes are returned. */
  lemma ReadPastEnd()
    ensures BlocksFor(0, 1024) == 2 && ReadCount(100, 0, 1024, 1) == 512
  {
  }

  /** Near the end of 32 bits the size is passed over as well: 100 bytes from 2^32 - 10 on, of a file of 2^32 - 5. */
  lemma ReadWraps()
    ensures BlocksFor(0xffff_fff6, 100) == 2 && ReadCount(0xffff_fffb, 0xffff_fff6, 100, 2) == 100
  {
  }

  /** A file as its driver sees it: whole blocks, of which the node uses the first `size` bytes. */
  class File {
    var data: seq<byte>
    var size: nat

    ghost predicate Valid()
      reads this
    {
      |data| % BLOCK_SIZE == 0 && size <= |data| <= TWO32 && size < TWO32
    }

    /** driver->read, which moves the first `moved` blocks: `buf` arrives with whatever the allocator left in it. */
    method DriverRead(block: nat, nblocks: nat, moved: nat, junk: seq<byte>) returns (buf: seq<byte>)
      requires Valid() && moved <= nblocks && (moved > 0 ==> (block + moved) * BLOCK_SIZE <= |data|)
      requires |junk| == nblocks * BLOCK_SIZE
      ensures |buf| == |junk|
      ensures moved > 0 ==> buf == Spliced(junk, 0, data[block * BLOCK_SIZE..(block + moved) * BLOCK_SIZE])
      ensures moved == 0 ==> buf == junk
    {
      buf := junk;
      if moved > 0 {
        assert moved * BLOCK_SIZE <= nblocks * BLOCK_SIZE;
        buf := Spliced(junk, 0, data[block * BLOCK_SIZE..(block + moved) * BLOCK_SIZE]);
      }
    }

    /** driver->write: the first `outcome` blocks of the buffer. */
    method DriverWrite(block: nat, nblocks: nat, buf: seq<byte>, outcome: int)
      requires Valid() && (block + nblocks) * BLOCK_SIZE <= |data| && nblocks * BLOCK_SIZE <= |buf|
      requires Answer(outcome, nblocks)
      modifies this`data
      ensures |data| == |old(data)|
      ensures data == if outcome <= 0 then old(data)
                      else Spliced(old(data), block * BLOCK_SIZE, buf[..outcome * BLOCK_SIZE])
    {
      if outcome > 0 {
        data := Spliced(data, block * BLOCK_SIZE, buf[..outcome * BLOCK_SIZE]);
      }
    }

    /** vfs_write: block-aligned writes go straight through, others read, patch and write back. */
    method VfsWrite(buffer: seq<byte>, offset: nat, memory: bool, readOutcome: int, writeOutcome: int, junk: seq<byte>)
      returns (ret: int)
      requires Valid() && 0 < |buffer| < 0x8000_0000 && offset + |buffer| <= |data|
      requires |junk| == BlocksFor(offset, |buffer|) * BLOCK_SIZE
      requires !Aligned(offset, |buffer|) ==>
                 Answer(readOutcome, BlocksFor(offset, |buffer|)) && ShortReadSafe(offset, |buffer|, readOutcome)
      requires var r := ReadBack(offset, |buffer|, readOutcome); 0 < r ==> Answer(writeOutcome, r)
      modifies this`data
      ensures Valid()
      ensures !memory && !Aligned(offset, |buffer|) ==> ret == -ENOMEM && data == old(data)
      ensures var r := ReadBack(offset, |buffer|, readOutcome);
              memory || Aligned(offset, |buffer|) ==>
                if r <= 0 then ret == r && data == old(data)
                else if writeOutcome <= 0 then ret == writeOutcome && data == old(data)
                else
                  && ret == Reported(offset, |buffer|, r, writeOutcome)
                  && 0 <= Stored(offset, |buffer|, r, writeOutcome) <= |buffer|
                  && data == Spliced(old(data), offset, buffer[..Stored(offset, |buffer|, r, writeOutcome)])
      ensures offset % 512 == 0 && |buffer| % 512 == 0 && 0 < writeOutcome <= |buffer| / 512 ==>
                ret == writeOutcome * 512 && data == Spliced(old(data), offset, buffer[..writeOutcome * 512])
      ensures memory && readOutcome == writeOutcome == BlocksFor(offset, |buffer|) ==>
                ret == |buffer| && data == Spliced(old(data), offset, buffer)
    {
      BlocksCover(|data|, offset, |buffer|);
      if offset % BLOCK_SIZE == 0 && |buffer| % BLOCK_SIZE == 0 {
        ret := WriteThrough(buffer, offset, writeOutcome);
      } else if !memory {
        ret := -ENOMEM;
      } else {
        ret := WriteAround(buffer, offset, readOutcome, writeOutcome, junk);
      }
    }

    /** The easy case of vfs_write: whole blocks. */
    method WriteThrough(buffer: seq<byte>, offset: nat, writeOutcome: int) returns (ret: int)
      requires Valid() && |buffer| > 0 && offset + |buffer| <= |data| && Aligned(offset, |buffer|)
      requires Answer(writeOutcome, BlocksFor(offset, |buffer|))
      modifies this`data
      ensures Valid()
      ensures writeOutcome <= 0 ==> ret == writeOutcome && data == old(data)
      ensures writeOutcome > 0 ==>
                && ret == Reported(offset, |buffer|, BlocksFor(offset, |buffer|), writeOutcome)
                && ret == Stored(offset, |buffer|, BlocksFor(offset, |buffer|), writeOutcome) <= |buffer|
                && data == Spliced(old(data), offset, buffer[..ret])
    {
      hide Spliced;
      var count := |buffer|;
      BlocksCover(|data|, offset, count);
      assert count == count / BLOCK_SIZE * BLOCK_SIZE;
      DriverWrite(offset / BLOCK_SIZE, count / BLOCK_SIZE, buffer, writeOutcome);
      ret := if writeOutcome <= 0 then writeOutcome else writeOutcome * BLOCK_SIZE;
    }

    /** The other case of vfs_write: read the blocks, patch them, write them back. */
    method WriteAround(buffer: seq<byte>, offset: nat, readOutcome: int, writeOutcome: int, junk: seq<byte>)
      returns (ret: int)
      requires Valid() && |buffer| > 0 && offset + |buffer| <= |data| && !Aligned(offset, |buffer|)
      requires |junk| == BlocksFor(offset, |buffer|) * BLOCK_SIZE
      requires Answer(readOutcome, BlocksFor(offset, |buffer|)) && ShortReadSafe(offset, |buffer|, readOutcome)
      requires 0 < readOutcome ==> Answer(writeOutcome, readOutcome)
      modifies this`data
      ensures Valid()
      ensures readOutcome <= 0 ==> ret == readOutcome && data == old(data)
      ensures readOutcome > 0 && writeOutcome <= 0 ==> ret == writeOutcome && data == old(data)
      ensures readOutcome > 0 && writeOutcome > 0 ==>
                && ret == Reported(offset, |buffer|, readOutcome, writeOutcome)
                && 0 <= Stored(offset, |buffer|, readOutcome, writeOutcome) <= |buffer|
                && data == Spliced(old(data), offset, buffer[..Stored(offset, |buffer|, readOutcome, writeOutcome)])
    {
      hide Spliced, ShortReadSafe;
      var count := |buffer|;
      BlocksCover(|data|, offset, count);
      var block := offset / BLOCK_SIZE;
      var nblocks := (offset % BLOCK_SIZE + count + BLOCK_SIZE - 1) / BLOCK_SIZE;
      var buf := DriverRead(block, nblocks, if readOutcome > 0 then readOutcome else 0, junk);
      if readOutcome <= 0 {
        return readOutcome;
      }
      ShortReadExact(offset, count, readOutcome);
      KeptFits(offset, count, readOutcome, writeOutcome);
      if readOutcome < nblocks {
        count := count - (nblocks - readOutcome) * BLOCK_SIZE;
        nblocks := readOutcome;
      }
      WritePatched(block, nblocks, offset, buffer[..count], buf, junk, writeOutcome);
      if writeOutcome <= 0 {
        return writeOutcome;
      }
      TakeTake(buffer, count, Stored(offset, |buffer|, readOutcome, writeOutcome));
      if writeOutcome < nblocks {
        count := count - (nblocks - writeOutcome) * BLOCK_SIZE;
      }
      ret := count;
    }

    /** What is left of the count after a short read fits the blocks read, and what is stored of it is a count. */
    static lemma KeptFits(offset: nat, count: nat, readOutcome: int, writeOutcome: int)
      requires count > 0 && 0 < readOutcome <= BlocksFor(offset, count)
      requires Clipped(count, BlocksFor(offset, count) - readOutcome) >= 0
      ensures var kept := Clipped(count, BlocksFor(offset, count) - readOutcome);
              kept <= count && offset % BLOCK_SIZE + kept <= readOutcome * BLOCK_SIZE
      ensures 0 < writeOutcome <= readOutcome ==> 0 <= Stored(offset, count, readOutcome, writeOutcome) <= count
    {
    }

    static lemma TakeTake(s: seq<byte>, n: nat, k: nat)
      requires k <= n <= |s|
      ensures s[..n][..k] == s[..k]
    {
    }

    /** The patch and write-back of vfs_write. */
    method WritePatched(block: nat, nblocks: nat, offset: nat, patch: seq<byte>, read: seq<byte>, ghost junk: seq<byte>,
                        writeOutcome: int)
      requires Valid() && (block + nblocks) * BLOCK_SIZE <= |data| && nblocks * BLOCK_SIZE <= |junk| == |read|
      requires read == Spliced(junk, 0, data[block * BLOCK_SIZE..(block + nblocks) * BLOCK_SIZE])
      requires block * BLOCK_SIZE + offset % BLOCK_SIZE == offset
      requires offset % BLOCK_SIZE + |patch| <= nblocks * BLOCK_SIZE && Answer(writeOutcome, nblocks)
      modifies this`data
      ensures |data| == |old(data)|
      ensures data == if writeOutcome <= 0 then old(data) else
                      var fit := writeOutcome * BLOCK_SIZE - offset % BLOCK_SIZE;
                      Spliced(old(data), offset, patch[..if |patch| <= fit then |patch| else fit])
    {
      var buf := Spliced(read, offset % BLOCK_SIZE, patch);
      DriverWrite(block, nblocks, buf, writeOutcome);
      if writeOutcome > 0 {
        PatchedBlocks(old(data), block, nblocks, writeOutcome, offset, patch, buf, junk);
      }
    }

    /** Writing back the first `written` of the patched blocks stores the part of the patch that they hold. */
    static lemma PatchedBlocks(d: seq<byte>, block: nat, nblocks: nat, written: nat, offset: nat, patch: seq<byte>,
                               buf: seq<byte>, junk: seq<byte>)
      requires 0 < written <= nblocks <= nblocks * BLOCK_SIZE <= |junk| == |buf|
      requires (block + nblocks) * BLOCK_SIZE <= |d|
      requires block * BLOCK_SIZE + offset % BLOCK_SIZE == offset
      requires offset % BLOCK_SIZE + |patch| <= nblocks * BLOCK_SIZE
      requires buf == Spliced(Spliced(junk, 0, d[block * BLOCK_SIZE..(block + nblocks) * BLOCK_SIZE]),
                              offset % BLOCK_SIZE, patch)
      ensures var fit := written * BLOCK_SIZE - offset % BLOCK_SIZE;
              var kept := if |patch| <= fit then |patch| else fit;
              Spliced(d, block * BLOCK_SIZE, buf[..written * BLOCK_SIZE]) == Spliced(d, offset, patch[..kept])
    {
      var lo, skip, len := block * BLOCK_SIZE, offset % BLOCK_SIZE, written * BLOCK_SIZE;
      var kept := if |patch| <= len - skip then |patch| else len - skip;
      var front := buf[..len];
      forall i | 0 <= i < len ensures front[i] == if skip <= i < skip + |patch| then patch[i - skip] else d[lo + i] {
        BufferByte(d[lo..(block + nblocks) * BLOCK_SIZE], junk, skip, patch, i);
      }
      var r, s := Spliced(d, lo, front), Spliced(d, offset, patch[..kept]);
      SplicedBytes(d, lo, front);
      SplicedBytes(d, offset, patch[..kept]);
      assert forall i :: 0 <= i < |d| ==> r[i] == s[i];
    }

    /** A byte of the patched buffer: of the patch where it reaches, of the blocks read elsewhere. */
    static lemma BufferByte(blocks: seq<byte>, junk: seq<byte>, skip: nat, patch: seq<byte>, i: nat)
      requires i < |blocks| <= |junk| && skip + |patch| <= |junk|
      ensures Spliced(Spliced(junk, 0, blocks), skip, patch)[i] ==
              if skip <= i < skip + |patch| then patch[i - skip] else blocks[i]
    {
      SplicedBytes(junk, 0, blocks);
      SplicedBytes(Spliced(junk, 0, blocks), skip, patch);
    }

    /**
     vfs_read, when the driver moves `moved` blocks and answers `readOutcome`: the bytes of those blocks, as many as
     `ReadCount` says, and behind them what the allocator left, should the driver answer more than it moved.
     */
    method VfsRead(offset: u32, count: nat, memory: bool, readOutcome: int, moved: nat, junk: seq<byte>)
      returns (ret: int, buffer: seq<byte>)
      requires Valid() && count < 0x8000_0000
      requires |junk| == BlocksFor(offset, count) * BLOCK_SIZE && Answer(readOutcome, BlocksFor(offset, count))
      requires moved <= BlocksFor(offset, count) && (moved > 0 ==> (offset / BLOCK_SIZE + moved) * BLOCK_SIZE <= |data|)
      requires readOutcome == BlocksFor(offset, count) ==> ReadGuard(size, offset, count)
      ensures !memory ==> ret == -ENOMEM && buffer == []
      ensures memory && readOutcome <= 0 && readOutcome < BlocksFor(offset, count) ==>
                ret == readOutcome && buffer == []
      ensures memory && (readOutcome > 0 || readOutcome == BlocksFor(offset, count)) ==>
                && ret == ReadCount(size, offset, count, readOutcome) && 0 <= ret <= count && |buffer| == ret
                && (forall i :: 0 <= i < ret ==>
                      buffer[i] == if offset % BLOCK_SIZE + i < moved * BLOCK_SIZE then data[offset + i]
                                   else junk[offset % BLOCK_SIZE + i])
                && (0 < readOutcome <= moved ==> offset + ret <= |data| && buffer == data[offset..offset + ret])
      ensures memory && 0 < readOutcome < BlocksFor(offset, count) ==> ret == readOutcome * 512 - offset % 512
      ensures memory && readOutcome == BlocksFor(offset, count) && offset + count <= size ==> ret == count
      ensures memory && readOutcome == BlocksFor(offset, count) && offset <= size < offset + count < TWO32 ==>
                ret == size - offset
    {
      hide Spliced;
      var block := offset / BLOCK_SIZE;
      var nblocks := (offset % BLOCK_SIZE + count + BLOCK_SIZE - 1) / BLOCK_SIZE;
      var skip := offset % BLOCK_SIZE;
      if !memory {
        return -ENOMEM, [];
      }
      var buf := DriverRead(block, nblocks, moved, junk);
      buffer := [];
      if readOutcome < nblocks && readOutcome <= 0 {
        return readOutcome, [];
      }
      ReadCountFits(size, offset, count, readOutcome);
      if readOutcome < nblocks {
        ret := readOutcome * BLOCK_SIZE - skip;
      } else {
        ret := if (offset + count) % TWO32 > size then size - offset else count;
      }
      buffer := buf[skip..skip + ret];
      ReadBytes(data, junk, buf, offset, moved, ret, buffer);
    }

    /** The bytes behind the block offset: those of the file where blocks were moved. */
    static lemma ReadBytes(d: seq<byte>, junk: seq<byte>, buf: seq<byte>, offset: nat, moved: nat, n: nat, x: seq<byte>)
      requires moved * BLOCK_SIZE <= |junk| == |buf| && offset % BLOCK_SIZE + n <= |buf|
      requires x == buf[offset % BLOCK_SIZE..offset % BLOCK_SIZE + n] && (moved == 0 ==> buf == junk)
      requires var lo := offset / BLOCK_SIZE;
               moved > 0 ==> (lo + moved) * BLOCK_SIZE <= |d|
                             && buf == Spliced(junk, 0, d[lo * BLOCK_SIZE..(lo + moved) * BLOCK_SIZE])
      ensures var skip := offset % BLOCK_SIZE;
              && (forall i :: 0 <= i < n ==>
                    x[i] == if skip + i < moved * BLOCK_SIZE then d[offset + i] else junk[skip + i])
              && (moved > 0 && skip + n <= moved * BLOCK_SIZE ==> offset + n <= |d| && x == d[offset..offset + n])
    {
      var skip, lo := offset % BLOCK_SIZE, offset / BLOCK_SIZE;
      assert offset == lo * BLOCK_SIZE + skip;
      if moved > 0 {
        SplicedBytes(junk, 0, d[lo * BLOCK_SIZE..(lo + moved) * BLOCK_SIZE]);
      }
      forall i | 0 <= i < n
        ensures skip + i < moved * BLOCK_SIZE ==> offset + i < |d|
        ensures x[i] == if skip + i < moved * BLOCK_SIZE then d[offset + i] else junk[skip + i]
      {
        assert x[i] == buf[skip + i];
      }
    }
  }

  datatype Write = Write(offset: nat, buf: seq<byte>)

  predicate InFile(length: nat, w: Write) {
    w.offset + |w.buf| <= length
  }

  /** The file after a run of complete writes. */
  function Applied(d: seq<byte>, ws: seq<Write>): (r: seq<byte>)
    requires forall w :: w in ws ==> InFile(|d|, w)
    ensures |r| == |d|
  {
    if ws == [] then d
    else
      var w := ws[|ws| - 1];
      assert InFile(|d|, w);
      Spliced(Applied(d, ws[..|ws| - 1]), w.offset, w.buf)
  }

  predicate Covers(w: Write, a: nat) {
    w.offset <= a < w.offset + |w.buf|
  }

  /** The last write of the run that covers the byte, or -1. */
  function LastCover(ws: seq<Write>, a: nat): (k: int)
    ensures -1 <= k < |ws|
    ensures k >= 0 ==> Covers(ws[k], a)
    ensures forall j :: k < j < |ws| ==> !Covers(ws[j], a)
  {
    if ws == [] then -1
    else if Covers(ws[|ws| - 1], a) then |ws| - 1
    else
      var k := LastCover(ws[..|ws| - 1], a);
      assert forall j :: k < j < |ws| - 1 ==> ws[j] == ws[..|ws| - 1][j];
      k
  }

  /** After any run of writes every byte is that of the last write covering it, or the original one if none does. */
  lemma {:induction false} LastWriteWins(d: seq<byte>, ws: seq<Write>, a: nat)
    requires (forall w :: w in ws ==> InFile(|d|, w)) && a < |d|
    ensures var k := LastCover(ws, a);
            Applied(d, ws)[a] == if k >= 0 then ws[k].buf[a - ws[k].offset] else d[a]
  {
    if ws != [] {
      assert InFile(|d|, ws[|ws| - 1]);
      LastWriteWins(d, ws[..|ws| - 1], a);
      SplicedBytes(Applied(d, ws[..|ws| - 1]), ws[|ws| - 1].offset, ws[|ws| - 1].buf);
    }
  }
}
