/** The block allocator: a bitmap kept in blocks of the device it allocates from. */
module Allocator {
  import opened Bytes
  import opened Results
  import opened Bitmaps
  import opened BlockDevice
  import opened Regions

  /** The answers `allocate` may give when `free` are the free blocks. */
  ghost predicate IsLeastFree(free: set<nat>, r: Result<nat>) {
    match r
    case Ok(b) => b in free && forall k | k in free :: b <= k
    case Err(e) => e == OutOfResource && free == {}
  }

  // ---- The bitmap while it is initialised ----

  /** The bits before row `q` are set, the rows after it are zero. */
  ghost predicate Prepared(m: Region, d: Disk, q: nat) {
    && m.Fits(d) && q < m.cnt && m.FullBlocks(d, q)
    && forall b | m.start + q < b < m.start + m.cnt :: d[b] == seq(m.bs, _ => 0)
  }

  /** The first `c` bits of `s` are set, the others clear. */
  ghost predicate FirstBitsSet(s: Block, c: nat) {
    forall j | 0 <= j < 8 * |s| :: BitAt(s, j) <==> j < c
  }

  /** `n` bits are set so far, the last `c` of them in row `q`. */
  ghost predicate Reached(m: nat, q: nat, c: nat, n: nat)
    requires m > 0
  {
    || (Row(n, m) == q && Col(n, m) == c)
    || (Row(n, m) == q + 1 && Col(n, m) == 0 && c == m)
  }

  /** Bit `n` goes next to the last one, or opens the next row when this one is full. */
  lemma ReachedNext(m: nat, q: nat, c: nat, n: nat)
    requires m > 0 && Reached(m, q, c, n)
    ensures (n / m == q && n % m == c) || (n / m == q + 1 == Row(n, m) && n % m == 0)
    ensures n % m < m && Reached(m, n / m, n % m + 1, n + 1)
  {
    RowColDivMod(n, m);
    NextPlace(n, m);
  }

  lemma BufferCleared(s: Block)
    requires forall j | 0 <= j < |s| :: s[j] == 0
    ensures FirstBitsSet(s, 0)
  {
    forall j | 0 <= j < 8 * |s| ensures !BitAt(s, j) { AllZeroBits(s, j); }
  }

  lemma BufferSet(s: Block, c: nat)
    requires FirstBitsSet(s, c) && c < 8 * |s|
    ensures FirstBitsSet(PutBitAt(s, c, true), c + 1)
  {
    var t := PutBitAt(s, c, true);
    forall j | 0 <= j < 8 * |s| ensures BitAt(t, j) <==> j < c + 1 { PutBitAtBit(s, c, true, j); }
  }

  /** Writing row `q` out leaves exactly the bits set so far on the device. */
  lemma RowFlushed(m: Region, d: Disk, q: nat, s: Block, c: nat, n: nat, e: Disk)
    requires Prepared(m, d, q) && |s| == m.bs && FirstBitsSet(s, c)
    requires Reached(8 * m.bs, q, c, n)
    requires e == d[m.start + q := s]
    ensures m.Fits(e) && forall b: nat :: b in m.FreeSet(e) <==> n <= b < m.bits
    ensures Row(n, 8 * m.bs) == q + 1 < m.cnt ==> Prepared(m, e, q + 1)
  {
    forall k: nat | k < m.bits ensures m.On(e, k) <==> k < n {
      RowFlushedAt(m, d, q, s, c, e, k);
      BeforeIsLess(k, n, 8 * m.bs);
    }
    if Row(n, 8 * m.bs) == q + 1 < m.cnt {
      forall k | 0 <= k < m.bits && Row(k, 8 * m.bs) < q + 1 ensures m.On(e, k) {
        BeforeIsLess(k, n, 8 * m.bs);
      }
    }
  }

  lemma RowFlushedAt(m: Region, d: Disk, q: nat, s: Block, c: nat, e: Disk, k: nat)
    requires Prepared(m, d, q) && |s| == m.bs && FirstBitsSet(s, c) && k < m.bits
    requires m.Fits(e) && e == d[m.start + q := s]
    ensures m.On(e, k) <==> Before(k, 8 * m.bs, q, c)
  {
    var b := m.start + Row(k, 8 * m.bs);
    if b < m.start + q {
      assert e[b] == d[b] && m.On(d, k);
    } else if b == m.start + q {
      assert e[b] == s;
    } else {
      assert e[b] == seq(m.bs, _ => 0);
      AllZeroBits(e[b], Col(k, 8 * m.bs));
    }
  }

  class BlockAllocator {
    const bm: BlockManager
    const bitmapBlockId: nat
    const bitmapBlockCnt: nat
    const lastBlockNum: nat

    /** The bitmap: one bit for each block of the device. */
    ghost function Map(): Region {
      Region(bm.blockSize, bitmapBlockId, bitmapBlockCnt, lastBlockNum, bm.blockCnt)
    }

    ghost predicate Valid()
      reads bm, bm.data
    {
      bm.Valid() && Map().Shaped(bm.blockCnt)
    }

    ghost function Free(): set<nat>
      requires Valid()
      reads bm, bm.data
    {
      Map().FreeSet(bm.disk)
    }

    /** Only the bitmap blocks differ from `d`. */
    ghost predicate OnlyMapChanged(d: Disk)
      reads bm
    {
      SameOutside(d, bm.disk, bitmapBlockId, bitmapBlockId + bitmapBlockCnt)
    }

    /** Opens the bitmap at `bitmapBlockId`; with `willInitialize`, also marks as taken all blocks up to
        the end of the bitmap itself and as free all others. */
    constructor (bm: BlockManager, bitmapBlockId: nat, willInitialize: bool)
      requires bm.Valid() && bm.blockSize > 0 && bm.blockCnt > 0
      requires bitmapBlockId + CeilDiv(bm.blockCnt, 8 * bm.blockSize) <= bm.blockCnt
      modifies bm`disk, bm.data
      ensures Valid() && this.bm == bm && this.bitmapBlockId == bitmapBlockId
      ensures bitmapBlockCnt == CeilDiv(bm.blockCnt, 8 * bm.blockSize)
      ensures lastBlockNum == LastRow(bm.blockCnt, 8 * bm.blockSize)
      ensures OnlyMapChanged(old(bm.disk))
      ensures willInitialize ==>
        forall b: nat :: b in Map().FreeSet(bm.disk) <==> bitmapBlockId + bitmapBlockCnt <= b < bm.blockCnt
      ensures !willInitialize ==> bm.disk == old(bm.disk)
    {
      this.bm, this.bitmapBlockId := bm, bitmapBlockId;
      var totalBitsPerBlock := bm.blockSize * BITS_PER_BYTE;
      RowColDivMod(bm.blockCnt, totalBitsPerBlock);
      var totalBitmapBlock := bm.blockCnt / totalBitsPerBlock;
      if bm.blockCnt % totalBitsPerBlock != 0 {
        totalBitmapBlock := totalBitmapBlock + 1;
      }
      bitmapBlockCnt := totalBitmapBlock;
      if totalBitmapBlock * totalBitsPerBlock == bm.blockCnt {
        lastBlockNum := totalBitsPerBlock;
      } else {
        lastBlockNum := bm.blockCnt % totalBitsPerBlock;
      }
      new;
      LastRowFills(bm.blockCnt, totalBitsPerBlock);
      if willInitialize {
        Initialize();
      }
    }

    method ZeroMap()
      requires Valid()
      modifies bm`disk, bm.data
      ensures Valid() && OnlyMapChanged(old(bm.disk))
      ensures forall b | bitmapBlockId <= b < bitmapBlockId + bitmapBlockCnt :: bm.disk[b] == seq(bm.blockSize, _ => 0)
    {
      for i := 0 to bitmapBlockCnt
        invariant Valid() && OnlyMapChanged(old(bm.disk))
        invariant forall b | bitmapBlockId <= b < bitmapBlockId + i :: bm.disk[b] == seq(bm.blockSize, _ => 0)
      {
        bm.ZeroBlock(i + bitmapBlockId);
      }
    }

    /** The buffer holds the first `c` bits of the bitmap block at `curBlockId`, the blocks before it are
        written, and `n` bits are set in all. */
    ghost predicate Filling(curBlockId: nat, buffer: array<byte>, c: nat, n: nat)
      requires Valid()
      reads bm, bm.data, buffer
    {
      && buffer.Length == bm.blockSize && buffer != bm.data
      && bitmapBlockId <= curBlockId && Prepared(Map(), bm.disk, curBlockId - bitmapBlockId)
      && Reached(8 * bm.blockSize, curBlockId - bitmapBlockId, c, n)
      && FirstBitsSet(buffer[..], c)
    }

    /** Sets one bit for each reserved block, row by row in a buffer that is written out, and cleared,
        whenever the bits move on to another bitmap block. */
    method Initialize()
      requires Valid()
      modifies bm`disk, bm.data
      ensures Valid() && OnlyMapChanged(old(bm.disk))
      ensures forall b: nat :: b in Map().FreeSet(bm.disk) <==> bitmapBlockId + bitmapBlockCnt <= b < bm.blockCnt
    {
      ZeroMap();
      var curBlockId := bitmapBlockId;
      var buffer := new byte[bm.blockSize](_ => 0);
      BufferCleared(buffer[..]);
      ghost var c: nat := 0;
      for i := 0 to bitmapBlockCnt + bitmapBlockId
        invariant Valid() && OnlyMapChanged(old(bm.disk))
        invariant Filling(curBlockId, buffer, c, i)
      {
        curBlockId, c := Reserve(i, curBlockId, buffer, c);
      }
      FlushRow(curBlockId, buffer, c, bitmapBlockCnt + bitmapBlockId);
    }

    /** Sets bit `i`, which is the next one. */
    method Reserve(i: nat, curBlockId: nat, buffer: array<byte>, ghost c: nat)
      returns (blockId: nat, ghost c': nat)
      requires Valid() && Filling(curBlockId, buffer, c, i) && i < bm.blockCnt
      modifies buffer, bm`disk, bm.data
      ensures Valid() && OnlyMapChanged(old(bm.disk))
      ensures Filling(blockId, buffer, c', i + 1)
    {
      var totalBitsPerBlock := bm.blockSize * BITS_PER_BYTE;
      ReachedNext(totalBitsPerBlock, curBlockId - bitmapBlockId, c, i);
      blockId := i / totalBitsPerBlock + bitmapBlockId;
      var blockIdx := i % totalBitsPerBlock;
      var bitmap := new Bitmap(buffer, bm.blockSize);
      if blockId != curBlockId {
        FlushRow(curBlockId, buffer, c, i);
        bitmap.Zeroed();
        BufferCleared(buffer[..]);
      }
      BufferSet(buffer[..], blockIdx);
      assert buffer[..] == bitmap.Contents();
      bitmap.Set(blockIdx);
      assert buffer[..] == bitmap.Contents();
      c' := blockIdx + 1;
    }

    method FlushRow(curBlockId: nat, buffer: array<byte>, ghost c: nat, ghost n: nat)
      requires Valid() && Filling(curBlockId, buffer, c, n)
      modifies bm`disk, bm.data
      ensures Valid() && OnlyMapChanged(old(bm.disk))
      ensures forall b: nat :: b in Map().FreeSet(bm.disk) <==> n <= b < bm.blockCnt
      ensures Row(n, 8 * bm.blockSize) == curBlockId - bitmapBlockId + 1 < bitmapBlockCnt
        ==> Prepared(Map(), bm.disk, curBlockId - bitmapBlockId + 1)
    {
      bm.WriteBlock(curBlockId, buffer);
      RowFlushed(Map(), old(bm.disk), curBlockId - bitmapBlockId, buffer[..], c, n, bm.disk);
    }

    /** Reads bitmap block `i` and finds its first clear bit. */
    method Search(i: nat, buffer: array<byte>) returns (res: Option<nat>)
      requires Valid() && i < bitmapBlockCnt && buffer.Length == bm.blockSize && buffer != bm.data
      modifies buffer
      ensures Valid() && buffer[..] == bm.disk[bitmapBlockId + i]
      ensures IsFirstFree(bm.disk[bitmapBlockId + i], Map().Len(i), res)
    {
      bm.ReadBlock(i + bitmapBlockId, buffer);
      var bitmap := new Bitmap(buffer, bm.blockSize);
      assert bitmap.Contents() == bm.disk[bitmapBlockId + i];
      if i == bitmapBlockCnt - 1 {
        res := bitmap.FindFirstFreeWithBound(lastBlockNum);
      } else {
        res := bitmap.FindFirstFree();
      }
    }

    /** Stores bit `k` of the bitmap, the buffer holding its block. */
    method StoreBit(blockId: nat, idx: nat, on: bool, buffer: array<byte>, ghost k: nat)
      requires Valid() && buffer != bm.data && k < bm.blockCnt
      requires blockId == bitmapBlockId + Row(k, 8 * bm.blockSize) && idx == Col(k, 8 * bm.blockSize)
      requires buffer[..] == bm.disk[blockId]
      modifies buffer, bm`disk, bm.data
      ensures Valid() && OnlyMapChanged(old(bm.disk))
      ensures Free() == if on then old(Free()) - {k} else old(Free()) + {k}
    {
      var bitmap := new Bitmap(buffer, bm.blockSize);
      assert bitmap.Contents() == buffer[..];
      if on {
        bitmap.Set(idx);
      } else {
        bitmap.Clear(idx);
      }
      assert buffer[..] == bitmap.Contents();
      bm.WriteBlock(blockId, buffer);
      assert bm.disk == old(bm.disk)[blockId := PutBitAt(old(bm.disk)[blockId], idx, on)];
      Map().Put(old(bm.disk), k, on, bm.disk);
    }

    /** Takes the least free block. */
    method Allocate() returns (r: Result<nat>)
      requires Valid()
      modifies bm`disk, bm.data
      ensures Valid() && OnlyMapChanged(old(bm.disk))
      ensures IsLeastFree(old(Free()), r)
      ensures Free() == if r.Ok? then old(Free()) - {r.value} else {}
      ensures r.Err? ==> bm.disk == old(bm.disk)
    {
      var totalBitsPerBlock := bm.blockSize * BITS_PER_BYTE;
      var buffer := new byte[bm.blockSize](_ => 0);
      for i := 0 to bitmapBlockCnt
        invariant Valid() && bm.disk == old(bm.disk)
        invariant Map().FullBlocks(bm.disk, i)
      {
        var res := Search(i, buffer);
        if res.Some? {
          ghost var k := Map().FirstInBlock(bm.disk, i, res.value);
          StoreBit(i + bitmapBlockId, res.value, true, buffer, k);
          return Ok(i * totalBitsPerBlock + res.value);
        }
        Map().NoneInBlock(bm.disk, i);
      }
      Map().AllFull(bm.disk);
      r := Err(OutOfResource);
    }

    /** Gives a block back; a block that is free already, or not on the device, is refused. */
    method Deallocate(blockId: nat) returns (r: Result<()>)
      requires Valid()
      modifies bm`disk, bm.data
      ensures Valid() && OnlyMapChanged(old(bm.disk))
      ensures r == if blockId < bm.blockCnt && blockId !in old(Free()) then Ok(()) else Err(InvalidArg)
      ensures Free() == if r.Ok? then old(Free()) + {blockId} else old(Free())
      ensures r.Err? ==> bm.disk == old(bm.disk)
    {
      if blockId >= bm.blockCnt {
        return Err(InvalidArg);
      }
      var totalBitsPerBlock := bm.blockSize * BITS_PER_BYTE;
      var accordingBlock := blockId / totalBitsPerBlock + bitmapBlockId;
      var accordingIdx := blockId % totalBitsPerBlock;
      RowColDivMod(blockId, totalBitsPerBlock);
      var buffer := new byte[bm.blockSize](_ => 0);
      bm.ReadBlock(accordingBlock, buffer);
      var bitmap := new Bitmap(buffer, bm.blockSize);
      assert bitmap.Contents() == bm.disk[accordingBlock];
      var on := bitmap.Check(accordingIdx);
      if !on {
        return Err(InvalidArg);
      }
      StoreBit(accordingBlock, accordingIdx, false, buffer, blockId);
      r := Ok(());
    }

    /** The number of free blocks, the last bitmap block counted only as far as the device goes. */
    method FreeBlockCnt() returns (n: nat)
      requires Valid()
      ensures n == |Free()|
    {
      n := 0;
      var buffer := new byte[bm.blockSize](_ => 0);
      Map().CountAll(bm.disk);
      for i := 0 to bitmapBlockCnt
        invariant Valid() && n == |Map().FreeBefore(bm.disk, i, 0)|
      {
        bm.ReadBlock(i + bitmapBlockId, buffer);
        var bitmap := new Bitmap(buffer, bm.blockSize);
        assert bitmap.Contents() == bm.disk[bitmapBlockId + i];
        var nFree;
        if i == bitmapBlockCnt - 1 {
          nFree := bitmap.CountZerosToBound(lastBlockNum);
        } else {
          nFree := bitmap.CountZeros();
        }
        Map().CountBlock(bm.disk, i);
        n := n + nFree;
      }
    }
  }
}
