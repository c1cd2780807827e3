/**
 The direct-mapped write-through block cache between block devices and their users.
 */
module BlockCache {
  import opened Bytes
  import opened Options

  const EINVAL: int := 22
  const EWRITE: int := 509

  const GREAT_BIG_PRIME: nat := 0xfffffffb

  /** Exclusive or of the low `n` bits. */
  function Xor(a: nat, b: nat, n: nat): nat {
    if n == 0 then 0 else 2 * Xor(a / 2, b / 2, n - 1) + (a % 2 + b % 2) % 2
  }

  /** Bit `i` of a number. */
  function Bit(a: nat, i: nat): nat {
    if i == 0 then a % 2 else Bit(a / 2, i - 1)
  }

  /** Bit by bit: set where exactly one of the two is. */
  lemma {:induction false} XorBits(a: nat, b: nat, n: nat, i: nat)
    ensures Bit(Xor(a, b, n), i) == if i < n then (Bit(a, i) + Bit(b, i)) % 2 else 0
  {
    hide Xor;
    XorStep(a, b, n);
    if n == 0 {
      if i > 0 { XorBits(a, b, 0, i - 1); }
    } else {
      OddSum(a, b);
      if i > 0 { XorBits(a / 2, b / 2, n - 1, i - 1); }
    }
  }

  lemma OddSum(a: nat, b: nat)
    ensures (a % 2 + b % 2) % 2 == (Bit(a, 0) + Bit(b, 0)) % 2
  {
  }

  lemma XorStep(a: nat, b: nat, n: nat)
    ensures n == 0 ==> Xor(a, b, n) == 0
    ensures n > 0 ==> Xor(a, b, n) / 2 == Xor(a / 2, b / 2, n - 1) && Xor(a, b, n) % 2 == (a % 2 + b % 2) % 2
  {
    if n > 0 { Halves(Xor(a / 2, b / 2, n - 1), (a % 2 + b % 2) % 2); }
  }

  lemma Halves(x: nat, y: nat)
    requires y < 2
    ensures (2 * x + y) / 2 == x && (2 * x + y) % 2 == y
  {
  }

  /** The low bits are enough to tell two second operands apart. */
  lemma {:induction false} XorInjective(a: nat, b: nat, c: nat, n: nat, top: nat)
    requires Xor(a, b, n) == Xor(a, c, n) && top == Power(n) && b < top && c < top
    ensures b == c
    decreases n
  {
    hide Xor;
    if n > 0 {
      XorStep(a, b, n);
      XorStep(a, c, n);
      XorInjective(a / 2, b / 2, c / 2, n - 1, Power(n - 1));
      SameParity(a, b, c);
    }
  }

  lemma SameParity(a: nat, b: nat, c: nat)
    ensures (a % 2 + b % 2) % 2 == (a % 2 + c % 2) % 2 && b / 2 == c / 2 ==> b == c
  {
  }

  function Power(n: nat): (p: nat)
    ensures p > 0
  {
    if n == 0 then 1 else 2 * Power(n - 1)
  }

  lemma Power32()
    ensures Power(32) == TWO32
  {
    assert Power(8) == 256;
    assert Power(16) == 0x1_0000;
    assert Power(24) == 0x100_0000;
  }

  /** What a slot number is reduced from. */
  function Hash(addr: u32, block: u32): (h: nat)
    ensures h < TWO32
  {
    Xor(addr, block, 32) * GREAT_BIG_PRIME % TWO32
  }

  /** The prime is odd, so that multiplying by it can be undone: by 858993459. */
  lemma PrimeUndone(x: nat)
    requires x < TWO32
    ensures x * GREAT_BIG_PRIME % TWO32 * 858993459 % TWO32 == x
  {
    var y, q := x * GREAT_BIG_PRIME % TWO32, x * GREAT_BIG_PRIME / TWO32;
    assert x * GREAT_BIG_PRIME == TWO32 * q + y;
    Undone(x, 858993458 * x - 858993459 * q);
    assert y * 858993459 == x + TWO32 * (858993458 * x - 858993459 * q);
  }

  lemma Undone(x: nat, k: int)
    requires x < TWO32
    ensures (x + TWO32 * k) % TWO32 == x
  {
  }

  /** Blocks of one device are never mixed up before the reduction to the number of slots. */
  lemma HashInjective(addr: u32, b: u32, c: u32)
    requires Hash(addr, b) == Hash(addr, c)
    ensures b == c
  {
    hide Xor;
    XorBelow(addr, b, 32);
    XorBelow(addr, c, 32);
    Power32();
    PrimeUndone(Xor(addr, b, 32));
    PrimeUndone(Xor(addr, c, 32));
    XorInjective(addr, b, c, 32, TWO32);
  }

  lemma {:induction false} XorBelow(a: nat, b: nat, n: nat)
    ensures Xor(a, b, n) < Power(n)
  {
    if n > 0 { XorBelow(a / 2, b / 2, n - 1); }
  }

  type Block = s: seq<byte> | |s| == BLOCK_SIZE witness Zeros(BLOCK_SIZE)

  const ZEROS: Block := Zeros(BLOCK_SIZE)

  /** A device and its driver. The outcome of each driver call is chosen by the environment. */
  class BlockDev {
    const addr: u32
    const isBlock: bool
    var disk: map<u32, Block>

    constructor (addr: u32, isBlock: bool)
      ensures this.addr == addr && this.isBlock == isBlock && disk == map[]
    {
      this.addr := addr;
      this.isBlock := isBlock;
      disk := map[];
    }

    /** Current contents of a block. */
    function Content(b: u32): Block
      reads this
    {
      if b in disk then disk[b] else ZEROS
    }

    /** The driver's read of one block: what it reports, and what it puts into the buffer, None for nothing. */
    method Read(b: u32, outcome: int, delivered: Option<Block>) returns (ret: int, data: Option<Block>)
      ensures ret == outcome && data == delivered
    {
      ret := outcome;
      data := delivered;
    }

    /** A read that reports success exactly when it delivers the block, and otherwise leaves the buffer alone. */
    ghost predicate Honest(b: u32, outcome: int, delivered: Option<Block>)
      reads this
    {
      delivered == if outcome >= 0 then Some(Content(b)) else None
    }

    /**
     The driver's write: what it reports, and whether it stored the block, which drivers do not always report alike.
     No buffer stands for a block of zeros.
     */
    method Write(b: u32, buf: Option<Block>, outcome: int, stored: bool) returns (ret: int)
      modifies this
      ensures ret == outcome
      ensures disk == if stored then old(disk)[b := Stored(buf)] else old(disk)
    {
      ret := outcome;
      if stored {
        disk := disk[b := Stored(buf)];
      }
    }
  }

  /** The bytes that a write with this buffer stores. */
  function Stored(buf: Option<Block>): Block {
    match buf case None => ZEROS case Some(b) => b
  }

  /** What a cache slot is said to hold; `zero` stands for the zero-filled flag. */
  datatype Desc = Desc(dev: BlockDev?, block: u32, zero: bool)

  class Cache {
    const descs: array<Desc>
    const data: array<Block>
    ghost var devs: set<BlockDev>

    /** block_cache_get_slot */
    function Slot(dev: BlockDev, block: u32): (i: nat)
      requires descs.Length > 0
      ensures i < descs.Length
    {
      Hash(dev.addr, block) % descs.Length
    }

    /** An occupied slot is the block's own slot, and agrees with the device. */
    ghost predicate SlotOk(i: nat)
      requires i < descs.Length == data.Length
      reads this, descs, data, devs
    {
      descs[i].dev == null || Agrees(descs[i].dev, descs[i].block, descs[i].zero, data[i], i)
    }

    ghost predicate Agrees(dev: BlockDev, block: u32, zero: bool, cached: Block, i: nat)
      requires descs.Length > 0
      reads this, devs
    {
      && dev in devs
      && Slot(dev, block) == i
      && (cached == dev.Content(block) || (zero && dev.Content(block) == ZEROS))
    }

    ghost predicate Shaped()
      reads this
    {
      descs.Length == data.Length
    }

    ghost predicate Valid()
      reads this, descs, data, devs
    {
      && Shaped()
      && forall i :: 0 <= i < descs.Length ==> SlotOk(i)
    }

    /** The slot of a block holds that block. */
    ghost predicate Cached(dev: BlockDev, block: u32)
      requires descs.Length > 0
      reads this, descs
    {
      descs[Slot(dev, block)].dev == dev && descs[Slot(dev, block)].block == block
    }

    /**
     Whether a write leaves the cache in agreement with the device. It does when the driver reports at least 1 and has
     stored the block, or reports less and has not. Else it takes luck: a block reported as written but not stored must
     hold those bytes already, and a block stored but not reported must not be cached, or be cached with those bytes.
     */
    ghost predicate Coherent(dev: BlockDev, block: u32, buf: Option<Block>, outcome: int, stored: bool)
      requires descs.Length == data.Length > 0
      reads this, descs, data, dev
    {
      var slot := Slot(dev, block);
      if outcome >= 1 then
        stored || dev.Content(block) == Stored(buf) || (buf.None? && data[slot] == dev.Content(block))
      else
        !stored || !Cached(dev, block) || data[slot] == Stored(buf) || (descs[slot].zero && Stored(buf) == ZEROS)
    }

    /** No slot carries the zero-filled flag: so it is when no block was ever written without a buffer. */
    ghost predicate Plain()
      reads this, descs
    {
      forall i :: 0 <= i < descs.Length ==> !descs[i].zero
    }

    /** The zero-filled flag of the slot that a block maps to. */
    ghost predicate Flagged(dev: BlockDev, block: u32)
      reads this, descs
    {
      descs.Length > 0 && descs[Slot(dev, block)].zero
    }

    /** block_cache_init for `size` slots and a set of devices. */
    constructor (size: nat, ghost devs: set<BlockDev>)
      ensures Valid() && Plain() && this.devs == devs && descs.Length == size && fresh(descs) && fresh(data)
    {
      descs := new Desc[size](_ => Desc(null, 0, false));
      data := new Block[size](_ => ZEROS);
      this.devs := devs;
    }

    /** The bytes of a slot once its driver has been given it to read into. */
    ghost function Filled(slot: nat, delivered: Option<Block>): Block
      requires slot < data.Length
      reads data
    {
      match delivered case None => data[slot] case Some(b) => b
    }

    /**
     Whether reading an uncached block leaves the cache in agreement with the devices: a block reported as read must
     really be in its slot, and a failed read must not have touched what the slot still claims to hold.
     */
    ghost predicate ReadCoherent(dev: BlockDev, block: u32, outcome: int, delivered: Option<Block>)
      requires descs.Length == data.Length > 0
      reads this, descs, data, dev, descs[Slot(dev, block)].dev
    {
      var slot := Slot(dev, block);
      var d, now := descs[slot], Filled(slot, delivered);
      if outcome >= 0 then now == dev.Content(block) || (d.zero && dev.Content(block) == ZEROS)
      else d.dev == null || now == d.dev.Content(d.block) || (d.zero && d.dev.Content(d.block) == ZEROS)
    }

    lemma HonestCoherent(dev: BlockDev, block: u32, outcome: int, delivered: Option<Block>)
      requires Valid() && descs.Length > 0 && dev.Honest(block, outcome, delivered)
      ensures ReadCoherent(dev, block, outcome, delivered)
    {
      hide Slot;
      assert SlotOk(Slot(dev, block));
    }

    /** block_read: should the driver be asked, it reports `outcome` and puts `delivered` into the slot. */
    method BlockRead(dev: BlockDev, block: u32, outcome: int, delivered: Option<Block>) returns (ret: int, buf: Block)
      requires Shaped() && dev in devs
      modifies descs, data
      ensures old(Valid()) ==>
                (Valid() <==> !dev.isBlock || descs.Length == 0 || old(Cached(dev, block))
                              || old(ReadCoherent(dev, block, outcome, delivered)))
      ensures old(Plain()) ==> Plain()
      ensures !dev.isBlock ==> ret == -EINVAL
      ensures dev.isBlock && descs.Length == 0 ==> ret == outcome && (delivered.Some? ==> buf == delivered.value)
      ensures dev.isBlock && descs.Length > 0 ==>
                && ret == (if old(Cached(dev, block)) || outcome >= 0 then 0 else outcome)
                && (ret == 0 ==> buf == if old(Flagged(dev, block)) then ZEROS
                                        else if old(Cached(dev, block)) then old(data[Slot(dev, block)])
                                        else old(Filled(Slot(dev, block), delivered)))
                && (ret == 0 && old(Valid()) && dev.Honest(block, outcome, delivered) && !old(Flagged(dev, block)) ==>
                      buf == dev.Content(block))
      ensures !dev.isBlock || descs.Length == 0 || old(Cached(dev, block)) ==>
                descs[..] == old(descs[..]) && data[..] == old(data[..])
      ensures dev.isBlock && descs.Length > 0 && !old(Cached(dev, block)) ==>
                var slot := Slot(dev, block);
                && data[..] == old(data[..])[slot := old(Filled(slot, delivered))]
                && descs[..] == if ret == 0 then old(descs[..])[slot := Desc(dev, block, old(descs[slot].zero))]
                                else old(descs[..])
      ensures forall e: BlockDev, b: u32 :: e in devs ==> Flagged(e, b) == old(Flagged(e, b))
    {
      hide Slot;
      buf := ZEROS;
      if !dev.isBlock {
        return -EINVAL, buf;
      }
      if descs.Length == 0 {
        var got;
        ret, got := dev.Read(0, outcome, delivered);
        buf := if got.Some? then got.value else ZEROS;
        return;
      }
      var slot := Slot(dev, block);
      ghost var valid := Valid();
      if descs[slot].dev != dev || descs[slot].block != block {
        var r, got := dev.Read(block, outcome, delivered);
        if got.Some? {
          data[slot] := got.value;
        }
        if r >= 0 {
          descs[slot] := Desc(dev, block, descs[slot].zero);
        }
        ret := if r < 0 then r else 0;
      } else {
        ret := 0;
      }
      if ret == 0 {
        buf := if descs[slot].zero then ZEROS else data[slot];
      }
      if valid {
        forall i | 0 <= i < descs.Length && i != slot ensures SlotOk(i) {
          assert old(SlotOk(i));
        }
        assert old(SlotOk(slot));
        assert Valid() <==> SlotOk(slot);
      }
    }

    /** The block that reaches the driver: without cache slots it is always block 0. */
    function Target(block: u32): u32 { if descs.Length == 0 then 0 else block }

    /** block_write: through to the device, then into the slot. */
    method BlockWrite(dev: BlockDev, block: u32, buf: Option<Block>, outcome: int, stored: bool) returns (ret: int)
      requires Shaped() && dev in devs
      modifies descs, data, dev
      ensures old(Valid()) ==>
                (Valid() <==> !dev.isBlock || descs.Length == 0 || old(Coherent(dev, block, buf, outcome, stored)))
      ensures old(Plain()) && buf.Some? ==> Plain()
      ensures ret == if !dev.isBlock then -EINVAL
                     else if outcome >= 1 then 0 else if outcome == 0 then -EWRITE else outcome
      ensures dev.disk == if !dev.isBlock || !stored then old(dev.disk)
                          else if descs.Length == 0 then old(dev.disk)[0 := Stored(buf)]
                          else old(dev.disk)[block := Stored(buf)]
      ensures ret != 0 ==> descs[..] == old(descs[..]) && data[..] == old(data[..])
      ensures ret == 0 && descs.Length > 0 ==>
                var slot := Slot(dev, block);
                && descs[..] == old(descs[..])[slot := Desc(dev, block, buf.None?)]
                && data[..] == if buf.Some? then old(data[..])[slot := buf.value] else old(data[..])
    {
      hide Slot;
      if !dev.isBlock {
        return -EINVAL;
      }
      if descs.Length == 0 {
        ret := dev.Write(0, buf, outcome, stored);
        ret := if ret < 1 then (if ret == 0 then -EWRITE else ret) else 0;
        return;
      }
      var slot := Slot(dev, block);
      var r := dev.Write(block, buf, outcome, stored);
      if r >= 1 {
        if buf.Some? {
          data[slot] := buf.value;
        }
        descs[slot] := Desc(dev, block, buf.None?);
      }
      ret := if r >= 1 then 0 else if r == 0 then -EWRITE else r;
      if old(Valid()) {
        forall i | 0 <= i < descs.Length && i != slot ensures SlotOk(i) {
          assert old(SlotOk(i));
        }
        assert old(SlotOk(slot));
        assert Valid() <==> SlotOk(slot);
      }
    }

    /**
     A driver that stores a block and reports 0 makes the cache stale: the write of `b` fails, the device holds `b`,
     and a later read gives the bytes cached before.
     */
    method StaleRead(dev: BlockDev, block: u32, a: Block, b: Block) returns (wrote: int, got: Block)
      requires Valid() && dev in devs && dev.isBlock && descs.Length > 0 && a != b
      modifies descs, data, dev
      ensures wrote == -EWRITE && got == a && dev.Content(block) == b && !Valid()
    {
      wrote := BlockWrite(dev, block, Some(a), 1, true);
      wrote := BlockWrite(dev, block, Some(b), 0, true);
      assert Cached(dev, block) && data[..][Slot(dev, block)] == a;
      var r;
      r, got := BlockRead(dev, block, 0, Some(b));
      assert data[..][Slot(dev, block)] == a && descs[..][Slot(dev, block)] == Desc(dev, block, false);
      assert !SlotOk(Slot(dev, block));
    }

    /** With one slot, a write without buffer makes the next read of any other block come back as zeros. */
    method ZeroFlagLeft(dev: BlockDev, block: u32, other: u32) returns (got: Block)
      requires Valid() && dev in devs && dev.isBlock && descs.Length == 1 && block != other
      modifies descs, data, dev
      ensures got == ZEROS && dev.Content(other) == old(dev.Content(other))
    {
      var r := BlockWrite(dev, block, None, 1, true);
      r, got := BlockRead(dev, other, 0, Some(dev.Content(other)));
    }

    /** With one slot, a failed read of another block that has begun to fill the slot spoils the block cached there. */
    method SpoiltSlot(dev: BlockDev, block: u32, other: u32, junk: Block) returns (failed: int, got: Block)
      requires Valid() && Plain() && dev in devs && dev.isBlock && descs.Length == 1 && block != other
      requires junk != dev.Content(block)
      modifies descs, data
      ensures failed == -1 && got == junk && !Valid()
    {
      hide Slot;
      failed, got := BlockRead(dev, block, 0, Some(dev.Content(block)));
      failed, got := BlockRead(dev, other, -1, Some(junk));
      assert data[..][0] == junk && descs[..][0] == Desc(dev, block, false);
      var r;
      r, got := BlockRead(dev, block, 0, None);
      assert data[..][0] == junk && descs[..][0] == Desc(dev, block, false);
      assert !SlotOk(0);
    }

    /** Without slots every read gives block 0. */
    method NoSlots(dev: BlockDev, block: u32) returns (got: Block)
      requires Valid() && dev in devs && dev.isBlock && descs.Length == 0
      modifies descs, data
      ensures got == dev.Content(0)
    {
      var r;
      r, got := BlockRead(dev, block, 0, Some(dev.Content(0)));
    }

    /** The `i`-th block number of a run that starts at `block`, in 32-bit arithmetic. */
    function Nth(block: u32, i: nat): u32 { (block + i) % TWO32 }

    lemma NthStep(block: u32, i: nat)
      ensures Nth(block, 0) == block && Nth(block, i + 1) == (Nth(block, i) + 1) % TWO32
    {
    }

    /** block_read_multi: stops at the first result other than success. */
    method BlockReadMulti(dev: BlockDev, block: u32, count: u32, outcomes: seq<int>, delivered: seq<Option<Block>>)
      returns (ret: int, bufs: seq<Block>)
      requires Valid() && dev in devs && |outcomes| == |delivered| == count
      requires forall i :: 0 <= i < count ==> dev.Honest(Target(Nth(block, i)), outcomes[i], delivered[i])
      modifies descs, data
      ensures Valid() && (old(Plain()) ==> Plain())
      ensures dev.isBlock && descs.Length > 0 ==>
                && (ret == count || ret < 0)
                && ((forall i :: 0 <= i < count ==> outcomes[i] >= 0) ==> ret == count)
      ensures dev.isBlock && descs.Length > 0 && ret == count ==> |bufs| == count
      ensures dev.isBlock && descs.Length > 0 && ret == count ==>
                forall i :: 0 <= i < count ==>
                  bufs[i] == if old(Flagged(dev, Nth(block, i))) then ZEROS else dev.Content(Nth(block, i))
      ensures dev.isBlock && descs.Length == 0 && count > 0 && outcomes[0] != 0 ==> ret == outcomes[0]
    {
      hide SlotOk, Nth, Slot, Plain, Flagged, Cached, ReadCoherent, BlockDev.Content, Filled;
      bufs := [];
      NthStep(block, 0);
      var b := block;
      var i: nat := 0;
      while i < count
        invariant i <= count && |bufs| == i && b == Nth(block, i) && Valid() && (old(Plain()) ==> Plain())
        invariant dev.isBlock && descs.Length > 0 ==>
                    forall j :: 0 <= j < i ==>
                      bufs[j] == if old(Flagged(dev, Nth(block, j))) then ZEROS else dev.Content(Nth(block, j))
        invariant forall c: u32 :: Flagged(dev, c) == old(Flagged(dev, c))
        invariant dev.isBlock && descs.Length == 0 && count > 0 && outcomes[0] != 0 ==> i == 0
      {
        assert dev.Honest(Target(Nth(block, i)), outcomes[i], delivered[i]);
        if descs.Length > 0 { HonestCoherent(dev, b, outcomes[i], delivered[i]); }
        var r, buf := BlockRead(dev, b, outcomes[i], delivered[i]);
        if r != 0 {
          return r, bufs;
        }
        bufs := bufs + [buf];
        NthStep(block, i);
        b := (b + 1) % TWO32;
        i := i + 1;
      }
      ret := count;
    }

    /** Contents of a device after those of the first `n` blocks of a run that the driver stored. */
    function Overwritten(disk: map<u32, Block>, block: u32, bufs: seq<Option<Block>>, stores: seq<bool>, n: nat)
      : map<u32, Block>
      requires n <= |bufs| == |stores|
    {
      if n == 0 then disk
      else
        var before := Overwritten(disk, block, bufs, stores, n - 1);
        if stores[n - 1] then before[Nth(block, n - 1) := Stored(bufs[n - 1])] else before
    }

    /** block_write_multi, with one optional buffer per block: stops at the first result other than success. */
    method BlockWriteMulti(dev: BlockDev, block: u32, bufs: seq<Option<Block>>, outcomes: seq<int>, stores: seq<bool>)
      returns (ret: int)
      requires Shaped() && dev in devs && |outcomes| == |stores| == |bufs| < TWO32
      modifies descs, data, dev
      ensures old(Plain()) && (forall i :: 0 <= i < |bufs| ==> bufs[i].Some?) ==> Plain()
      ensures old(Valid()) && (forall i :: 0 <= i < |bufs| ==> (stores[i] <==> outcomes[i] >= 1)) ==> Valid()
      ensures dev.isBlock ==> (ret == |bufs| <==> forall i :: 0 <= i < |bufs| ==> outcomes[i] >= 1)
      ensures dev.isBlock && descs.Length > 0 && ret == |bufs| ==>
                dev.disk == Overwritten(old(dev.disk), block, bufs, stores, |bufs|)
      ensures dev.isBlock && descs.Length > 0 && ret != |bufs| ==>
                exists n :: 0 <= n < |bufs| && outcomes[n] < 1 && (forall i :: 0 <= i < n ==> outcomes[i] >= 1)
                            && dev.disk == Overwritten(old(dev.disk), block, bufs, stores, n + 1)
    {
      hide SlotOk, Nth, Slot;
      NthStep(block, 0);
      var b := block;
      var i: nat := 0;
      while i < |bufs|
        invariant i <= |bufs| && b == Nth(block, i)
        invariant old(Plain()) && (forall j :: 0 <= j < |bufs| ==> bufs[j].Some?) ==> Plain()
        invariant old(Valid()) && (forall j :: 0 <= j < |bufs| ==> (stores[j] <==> outcomes[j] >= 1)) ==> Valid()
        invariant dev.isBlock ==> forall j :: 0 <= j < i ==> outcomes[j] >= 1
        invariant dev.isBlock && descs.Length > 0 ==> dev.disk == Overwritten(old(dev.disk), block, bufs, stores, i)
      {
        ret := BlockWrite(dev, b, bufs[i], outcomes[i], stores[i]);
        if ret != 0 {
          assert dev.isBlock && descs.Length > 0 ==>
              dev.disk == Overwritten(old(dev.disk), block, bufs, stores, i + 1);
          return;
        }
        NthStep(block, i);
        b := (b + 1) % TWO32;
        i := i + 1;
      }
      ret := |bufs|;
    }

    /** After a run of writes, each stored block of the run holds its buffer and every other block is as before. */
    lemma {:induction false} OverwrittenAt(disk: map<u32, Block>, block: u32, bufs: seq<Option<Block>>,
                                           stores: seq<bool>, n: nat, b: u32)
      requires n <= |bufs| == |stores| < TWO32
      ensures var i := (b - block) % TWO32;
              var r := Overwritten(disk, block, bufs, stores, n);
              if i < n && stores[i] then b in r && r[b] == Stored(bufs[i])
              else (b in r <==> b in disk) && (b in disk ==> r[b] == disk[b])
      decreases n
    {
      if n > 0 {
        OverwrittenAt(disk, block, bufs, stores, n - 1, b);
        NthInjective(block, n - 1, b);
      }
    }

    lemma NthInjective(block: u32, k: nat, b: u32)
      requires k < TWO32
      ensures Nth(block, k) == b <==> (b - block) % TWO32 == k
    {
    }
  }
}
