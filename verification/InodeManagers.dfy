/** The inode manager: a bitmap of the inode numbers in use and a table from inode number to the
    block the inode is in. Inode `r` of the table is inode `r + 1` for the callers. */
module InodeManagers {
  import opened Bytes
  import opened Results
  import opened Bitmaps
  import opened BlockDevice
  import opened Regions
  import opened Allocator
  import opened Inodes

  /** The table of `n` entries in the `cnt` blocks after the super block. */
  datatype InodeTable = InodeTable(bs: nat, cnt: nat, n: nat) {

    ghost predicate Shaped(total: nat) {
      && BlockSizeOk(bs) && 1 + cnt <= total
      && forall r: nat {:trigger Row(r, Entries(bs))} :: r < n ==> Row(r, Entries(bs)) < cnt
    }

    ghost predicate Fits(d: Disk) {
      Shaped(|d|) && Sized(d, bs)
    }

    ghost function At(d: Disk, r: nat): u64
      requires Fits(d) && r < n
    {
      Entry(d[1 + Row(r, Entries(bs))], Col(r, Entries(bs)))
    }

    lemma Frame(d: Disk, e: Disk, r: nat)
      requires Fits(d) && Fits(e) && r < n
      requires forall b | 1 <= b < 1 + cnt :: d[b] == e[b]
      ensures At(d, r) == At(e, r)
    {
    }

    /** Storing entry `r` changes that entry and no other. */
    lemma Put(d: Disk, r: nat, v: u64, e: Disk, q: nat)
      requires Fits(d) && r < n && q < n
      requires var b := 1 + Row(r, Entries(bs)); e == d[b := Splice(d[b], 8 * Col(r, Entries(bs)), ToBytes(v, 8))]
      ensures Fits(e) && At(e, q) == if q == r then v else At(d, q)
    {
      SamePlace(q, r, Entries(bs));
      var b := 1 + Row(q, Entries(bs));
      if Row(q, Entries(bs)) == Row(r, Entries(bs)) {
        EntryStored(d[b], Col(r, Entries(bs)), v, Col(q, Entries(bs)));
      } else {
        assert e[b] == d[b];
      }
    }
  }

  /** Rounds up by multiplying back. */
  method RoundUp(n: nat, m: nat) returns (c: nat)
    requires m > 0
    ensures c == CeilDiv(n, m)
  {
    var q, r := DivMod(n, m);
    c := n / m;
    if c * m < n {
      c := c + 1;
    }
  }

  /** Every inode number below `n` has its place in the table. */
  lemma TableRows(n: nat, m: nat, r: nat)
    requires m > 0 && r < n
    ensures Row(r, m) < CeilDiv(n, m)
  {
    CeilDivBounds(n, m);
    RowCol(r, m);
    if Row(r, m) >= CeilDiv(n, m) { MulMono(CeilDiv(n, m), Row(r, m), m); }
  }

  /** The numbers of blocks and inodes a request for `n` inodes leads to; bitmap blocks are always
      used in full. */
  function BitmapBlocksFor(n: nat, bs: nat): nat
    requires BlockSizeOk(bs)
  {
    CeilDiv(n, 8 * bs)
  }

  function SupportedFor(n: nat, bs: nat): nat
    requires BlockSizeOk(bs)
  {
    BitmapBlocksFor(n, bs) * (8 * bs)
  }

  function TableBlocksFor(supported: nat, bs: nat): nat
    requires BlockSizeOk(bs)
  {
    CeilDiv(supported, Entries(bs))
  }

  function ReservedFor(n: nat, bs: nat): nat
    requires BlockSizeOk(bs)
  {
    1 + TableBlocksFor(SupportedFor(n, bs), bs) + BitmapBlocksFor(n, bs)
  }

  class InodeManager {
    const bm: BlockManager
    const maxInodeSupported: nat
    const nTableBlocks: nat
    const nBitmapBlocks: nat

    ghost function Table(): InodeTable {
      InodeTable(bm.blockSize, nTableBlocks, maxInodeSupported)
    }

    ghost function Map(): Region {
      Region(bm.blockSize, 1 + nTableBlocks, nBitmapBlocks, 8 * bm.blockSize, maxInodeSupported)
    }

    ghost predicate Valid()
      reads bm, bm.data
    {
      bm.Valid() && Shaped()
    }

    ghost predicate Shaped() {
      && GetReservedBlocks() < bm.blockCnt < 0x1_0000_0000
      && Table().Shaped(bm.blockCnt) && Map().Shaped(bm.blockCnt)
    }

    /** Lays out an empty table and an empty bitmap for at least `n` inodes. */
    constructor (bm: BlockManager, n: nat)
      requires bm.Valid() && BlockSizeOk(bm.blockSize) && bm.blockCnt < 0x1_0000_0000
      requires 0 < n && ReservedFor(n, bm.blockSize) < bm.blockCnt
      modifies bm`disk, bm.data
      ensures Valid() && this.bm == bm
      ensures nBitmapBlocks == BitmapBlocksFor(n, bm.blockSize) == BitmapBlocksFor(maxInodeSupported, bm.blockSize)
      ensures maxInodeSupported == SupportedFor(n, bm.blockSize) == SupportedFor(maxInodeSupported, bm.blockSize) >= n
      ensures maxInodeSupported < 0x1_0000_0000_0000_0000
      ensures nTableBlocks == TableBlocksFor(maxInodeSupported, bm.blockSize)
      ensures SameOutside(old(bm.disk), bm.disk, 1, GetReservedBlocks())
      ensures forall r: nat :: r in Map().FreeSet(bm.disk) <==> r < maxInodeSupported
      ensures forall r | 0 <= r < maxInodeSupported :: Table().At(bm.disk, r) == INVALID_BLOCK_ID
    {
      this.bm := bm;
      var blocksNeeded := RoundUp(n, bm.blockSize * BITS_PER_BYTE);
      nBitmapBlocks := blocksNeeded;
      var supported := blocksNeeded * BITS_PER_BYTE * bm.blockSize;
      Regroup(blocksNeeded, bm.blockSize);
      maxInodeSupported := supported;
      var tableBlocks := RoundUp(supported, bm.blockSize / 8);
      nTableBlocks := tableBlocks;
      new;
      CeilDivBounds(n, 8 * bm.blockSize);
      CeilDivUnique(supported, 8 * bm.blockSize, blocksNeeded);
      MulMono(blocksNeeded, 0xffff_ffff, 8 * bm.blockSize);
      Shape();
      ZeroTables();
    }

    /** Opens the table and bitmap that are on the device already. */
    constructor FromBlockManager(bm: BlockManager, maxInodeSupported: nat)
      requires bm.Valid() && BlockSizeOk(bm.blockSize) && bm.blockCnt < 0x1_0000_0000
      requires 0 < maxInodeSupported == SupportedFor(maxInodeSupported, bm.blockSize)
      requires ReservedFor(maxInodeSupported, bm.blockSize) < bm.blockCnt
      ensures Valid() && this.bm == bm && this.maxInodeSupported == maxInodeSupported
      ensures nBitmapBlocks == BitmapBlocksFor(maxInodeSupported, bm.blockSize)
      ensures nTableBlocks == TableBlocksFor(maxInodeSupported, bm.blockSize)
    {
      this.bm, this.maxInodeSupported := bm, maxInodeSupported;
      var q, r := DivMod(maxInodeSupported, 8 * bm.blockSize);
      var blocks := maxInodeSupported / (bm.blockSize * BITS_PER_BYTE);
      nBitmapBlocks := blocks;
      var tableBlocks := RoundUp(maxInodeSupported, bm.blockSize / 8);
      nTableBlocks := tableBlocks;
      new;
      Shape();
    }

    /** The table and the bitmap cover exactly the inode numbers. */
    lemma Shape()
      requires BlockSizeOk(bm.blockSize) && 0 < maxInodeSupported == nBitmapBlocks * (8 * bm.blockSize)
      requires nTableBlocks == CeilDiv(maxInodeSupported, Entries(bm.blockSize))
      ensures FillsRows(maxInodeSupported, 8 * bm.blockSize, nBitmapBlocks, 8 * bm.blockSize)
      ensures forall r: nat {:trigger Row(r, Entries(bm.blockSize))} ::
        r < maxInodeSupported ==> Row(r, Entries(bm.blockSize)) < nTableBlocks
    {
      var m := 8 * bm.blockSize;
      assert (nBitmapBlocks - 1) * m + m == nBitmapBlocks * m;
      RowsFilled(maxInodeSupported, m, nBitmapBlocks, m);
      forall r: nat | r < maxInodeSupported ensures Row(r, Entries(bm.blockSize)) < nTableBlocks {
        TableRows(maxInodeSupported, Entries(bm.blockSize), r);
      }
    }

    method ZeroTables()
      requires Valid()
      modifies bm`disk, bm.data
      ensures Valid() && SameOutside(old(bm.disk), bm.disk, 1, GetReservedBlocks())
      ensures forall r: nat :: r in Map().FreeSet(bm.disk) <==> r < maxInodeSupported
      ensures forall r | 0 <= r < maxInodeSupported :: Table().At(bm.disk, r) == INVALID_BLOCK_ID
    {
      var zeros: seq<byte> := seq(bm.blockSize, _ => 0);
      for i := 0 to nTableBlocks
        invariant Valid() && SameOutside(old(bm.disk), bm.disk, 1, GetReservedBlocks())
        invariant forall b | 1 <= b < 1 + i :: bm.disk[b] == zeros
      {
        bm.ZeroBlock(i + 1);
      }
      for i := 0 to nBitmapBlocks
        invariant Valid() && SameOutside(old(bm.disk), bm.disk, 1, GetReservedBlocks())
        invariant forall b | 1 <= b < 1 + nTableBlocks + i :: bm.disk[b] == zeros
      {
        bm.ZeroBlock(i + 1 + nTableBlocks);
      }
      forall r | 0 <= r < maxInodeSupported
        ensures !Map().On(bm.disk, r) && Table().At(bm.disk, r) == INVALID_BLOCK_ID
      {
        AllZeroBits(zeros, Col(r, 8 * bm.blockSize));
        ZeroEntry(zeros, Col(r, Entries(bm.blockSize)));
      }
    }

    static lemma ZeroEntry(s: Block, k: nat)
      requires 8 * k + 8 <= |s| && forall i | 0 <= i < |s| :: s[i] == 0
      ensures Entry(s, k) == 0
    {
      WordSizes();
      Stored64(s, 8 * k, 0);
    }

    function GetReservedBlocks(): nat {
      1 + nTableBlocks + nBitmapBlocks
    }

    /** The inode numbers not in use, counted from 0. */
    ghost function FreeInodes(): set<nat>
      requires Valid()
      reads bm, bm.data
    {
      Map().FreeSet(bm.disk)
    }

    /** The table entry of inode `r`, counted from 0. */
    ghost function Home(r: nat): u64
      requires Valid() && r < maxInodeSupported
      reads bm, bm.data
    {
      Table().At(bm.disk, r)
    }

    method SetTable(idx: nat, bid: u64)
      requires Valid() && idx < maxInodeSupported
      modifies bm`disk, bm.data
      ensures Valid() && SameOutside(old(bm.disk), bm.disk, 1, 1 + nTableBlocks)
      ensures Table().At(bm.disk, idx) == bid
      ensures forall q | 0 <= q < maxInodeSupported && q != idx :: Table().At(bm.disk, q) == Table().At(old(bm.disk), q)
      ensures FreeInodes() == old(FreeInodes())
    {
      var perBlock := bm.blockSize / 8;
      RowColDivMod(idx, perBlock);
      assert Row(idx, Entries(bm.blockSize)) < nTableBlocks;
      var bytes := new byte[8];
      StoreU64(bytes, 0, bid);
      assert bytes[..8] == ToBytes(bid, 8);
      bm.WritePartialBlock(1 + idx / perBlock, bytes, idx % perBlock * 8, 8);
      forall q | 0 <= q < maxInodeSupported
        ensures Table().At(bm.disk, q) == if q == idx then bid else Table().At(old(bm.disk), q)
      {
        Table().Put(old(bm.disk), idx, bid, bm.disk, q);
      }
      Map().Frame(old(bm.disk), bm.disk);
    }

    /** What stands where the table entry of `id` would be; the id is not checked. The entry of an id past the
        table lies in the blocks behind it, and what would lie past the device is not there. */
    method Get(id: nat) returns (r: Result<nat>)
      requires Valid()
      ensures r == if id > 0 && 1 + Row(id - 1, Entries(bm.blockSize)) < bm.blockCnt
        then Ok(Entry(bm.disk[1 + Row(id - 1, Entries(bm.blockSize))], Col(id - 1, Entries(bm.blockSize))))
        else Err(Fault)
      ensures 0 < id <= maxInodeSupported ==> r == Ok(Home(id - 1))
    {
      if id == 0 {
        return Err(Fault);
      }
      var rawId := id - 1;
      var perBlock := bm.blockSize / 8;
      RowColDivMod(rawId, perBlock);
      if 1 + rawId / perBlock >= bm.blockCnt {
        return Err(Fault);
      }
      var buffer := new byte[bm.blockSize](_ => 0);
      bm.ReadBlock(1 + rawId / perBlock, buffer);
      r := Ok(Entry(buffer[..], rawId % perBlock));
    }

    /** Reads the inode of `id` into the buffer; refuses ids the table has no block for, and the last two
        inode numbers. */
    method ReadInode(id: nat, buffer: array<byte>) returns (r: Result<nat>)
      requires Valid() && buffer.Length == bm.blockSize && buffer != bm.data
      requires forall q | 0 <= q < maxInodeSupported :: Home(q) < bm.blockCnt
      modifies buffer
      ensures Valid()
      ensures r == ReadResult(id)
      ensures r.Ok? ==> buffer[..] == bm.disk[Home(id - 1)]
    {
      if id >= maxInodeSupported - 1 {
        return Err(InvalidArg);
      }
      var blockId := Get(id);
      if blockId.Err? {
        return Err(blockId.error);
      }
      if blockId.value == INVALID_BLOCK_ID {
        return Err(InvalidArg);
      }
      bm.ReadBlock(blockId.value, buffer);
      r := Ok(blockId.value);
    }

    ghost function ReadResult(id: nat): Result<nat>
      requires Valid()
      reads bm, bm.data
    {
      if id >= maxInodeSupported - 1 then Err(InvalidArg)
      else if id == 0 then Err(Fault)
      else if Home(id - 1) == INVALID_BLOCK_ID then Err(InvalidArg)
      else Ok(Home(id - 1))
    }

    /** The iterator walks the bitmap and stands on its block `count`. */
    ghost predicate OnBitmap(iter: BlockIterator, count: nat)
      reads iter, bm, bm.data, iter.buffer
    {
      && iter.bm == bm && iter.Valid() && iter.InSync()
      && iter.start == 1 + nTableBlocks && iter.end == GetReservedBlocks()
      && iter.curOff == count * bm.blockSize && iter.Current() == 1 + nTableBlocks + count
      && (iter.HasNext() <==> count < nBitmapBlocks) && count <= nBitmapBlocks
    }

    /** Starts to walk the bitmap. */
    method BitmapBlocks() returns (iter: BlockIterator)
      requires Valid()
      ensures fresh(iter) && fresh(iter.buffer) && OnBitmap(iter, 0)
    {
      hide BlockManager.Valid;
      iter := new BlockIterator(bm, 1 + nTableBlocks, GetReservedBlocks());
      iter.AtBlock(0);
    }

    /** Moves on to the next block. */
    method NextBitmapBlock(iter: BlockIterator, ghost count: nat)
      requires Valid() && OnBitmap(iter, count) && count < nBitmapBlocks
      modifies iter`curOff, iter.buffer
      ensures Valid() && OnBitmap(iter, count + 1)
    {
      hide BlockManager.Valid;
      iter.AtBlock(count);
      var moved := iter.Next(bm.blockSize);
      iter.AtBlock(count + 1);
    }

    /** Sets bit `idx` of the block the iterator stands on, and writes the block. */
    method SetInBlock(iter: BlockIterator, bitmap: Bitmap, ghost count: nat, idx: nat, ghost k: nat)
      requires Valid() && OnBitmap(iter, count) && count < nBitmapBlocks && k < maxInodeSupported
      requires bitmap.data == iter.buffer && bitmap.payload == bm.blockSize && idx < 8 * bm.blockSize
      requires Row(k, 8 * bm.blockSize) == count && Col(k, 8 * bm.blockSize) == idx
      modifies iter.buffer, bm`disk, bm.data
      ensures Valid() && SameOutside(old(bm.disk), bm.disk, 1 + nTableBlocks, GetReservedBlocks())
      ensures FreeInodes() == old(FreeInodes()) - {k}
      ensures forall q | 0 <= q < maxInodeSupported :: Table().At(bm.disk, q) == Table().At(old(bm.disk), q)
    {
      hide Region.FreeSet, InodeTable.Shaped, BlockManager.Valid, InodeTable.At;
      assert bitmap.Contents() == iter.buffer[..];
      bitmap.Set(idx);
      assert bitmap.Contents() == iter.buffer[..];
      iter.FlushCurBlock();
      BitStored(old(bm.disk), k, true, bm.disk);
    }

    /** Sets the first clear bit of the bitmap. */
    method TakeInode() returns (r: Result<nat>)
      requires Valid()
      modifies bm`disk, bm.data
      ensures Valid() && SameOutside(old(bm.disk), bm.disk, 1 + nTableBlocks, GetReservedBlocks())
      ensures IsLeastFree(old(FreeInodes()), r) && (r.Ok? ==> r.value < maxInodeSupported)
      ensures FreeInodes() == if r.Ok? then old(FreeInodes()) - {r.value} else {}
      ensures r.Err? ==> bm.disk == old(bm.disk)
      ensures forall q | 0 <= q < maxInodeSupported :: Table().At(bm.disk, q) == Table().At(old(bm.disk), q)
    {
      hide Region.FreeSet, InodeTable.Shaped, BlockManager.Valid, Zeros, InodeTable.At;
      var iter := BitmapBlocks();
      var count := 0;
      while iter.HasNext()
        invariant Valid() && bm.disk == old(bm.disk) && fresh(iter) && fresh(iter.buffer)
        invariant OnBitmap(iter, count) && Map().FullBlocks(bm.disk, count)
        decreases nBitmapBlocks - count
      {
        var bitmap := new Bitmap(iter.buffer, bm.blockSize);
        assert bitmap.Contents() == iter.buffer[..] == bm.disk[1 + nTableBlocks + count];
        var freeIdx := bitmap.FindFirstFree();
        if freeIdx.Some? {
          ghost var k := Map().FirstInBlock(bm.disk, count, freeIdx.value);
          Regroup(count, bm.blockSize);
          SetInBlock(iter, bitmap, count, freeIdx.value, k);
          var rawId: nat := count * bm.blockSize * BITS_PER_BYTE + freeIdx.value;
          return Ok(rawId);
        }
        Map().NoneInBlock(bm.disk, count);
        NextBitmapBlock(iter, count);
        count := count + 1;
      }
      Map().AllFull(bm.disk);
      r := Err(OutOfResource);
    }

    static lemma Regroup(q: nat, bs: nat)
      ensures q * bs * 8 == q * 8 * bs == q * (8 * bs)
    {
    }

    /** What the device holds once bit `k` of the bitmap is stored. */
    lemma BitStored(d: Disk, k: nat, on: bool, e: Disk)
      requires Table().Fits(d) && Map().Fits(d) && k < maxInodeSupported
      requires var b := 1 + nTableBlocks + Row(k, 8 * bm.blockSize);
        e == d[b := PutBitAt(d[b], Col(k, 8 * bm.blockSize), on)]
      ensures Table().Fits(e) && Map().Fits(e)
      ensures SameOutside(d, e, 1 + nTableBlocks, GetReservedBlocks())
      ensures Map().FreeSet(e) == if on then Map().FreeSet(d) - {k} else Map().FreeSet(d) + {k}
      ensures forall q | 0 <= q < maxInodeSupported :: Table().At(e, q) == Table().At(d, q)
    {
      Map().Put(d, k, on, e);
      forall q | 0 <= q < maxInodeSupported ensures Table().At(e, q) == Table().At(d, q) {
        Table().Frame(d, e, q);
      }
    }

    /** Takes the least inode number not in use, lays out an empty inode in block `bid` and enters it in
        the table. */
    method AllocateInode(kind: Kind, bid: nat, now: u64) returns (r: Result<nat>)
      requires Valid() && GetReservedBlocks() <= bid < bm.blockCnt
      modifies bm`disk, bm.data
      ensures Valid()
      ensures r.Err? ==> r == Err(OutOfResource) && old(FreeInodes()) == {} && bm.disk == old(bm.disk)
      ensures r.Ok? ==>
        && 0 < r.value && IsLeastFree(old(FreeInodes()), Ok(r.value - 1))
        && FreeInodes() == old(FreeInodes()) - {r.value - 1}
        && (forall q | 0 <= q < maxInodeSupported ::
              Table().At(bm.disk, q) == if q == r.value - 1 then bid else Table().At(old(bm.disk), q))
        && InodeRep(bm.blockSize, bm.disk[bid], File(bid, kind, 0, now, [], INVALID_BLOCK_ID))
        && SameButFor(old(bm.disk), bm.disk, bid)
    {
      hide Region.FreeSet, InodeTable.At, InodeTable.Shaped, BlockManager.Valid, InodeRep;
      r := TakeInode();
      if r.Err? { return; }
      var rawId := r.value;
      ghost var image := WriteNewInode(kind, bid, now);
      SetTable(rawId, bid);
      assert bm.disk[bid] == image;
      r := Ok(rawId + 1);
    }

    method WriteNewInode(kind: Kind, bid: nat, now: u64) returns (ghost image: Block)
      requires Valid() && GetReservedBlocks() <= bid < bm.blockCnt
      modifies bm`disk, bm.data
      ensures Valid() && bm.disk == old(bm.disk)[bid := image]
      ensures InodeRep(bm.blockSize, image, File(bid, kind, 0, now, [], INVALID_BLOCK_ID))
      ensures FreeInodes() == old(FreeInodes())
      ensures forall q | 0 <= q < maxInodeSupported :: Table().At(bm.disk, q) == Table().At(old(bm.disk), q)
    {
      var buffer := new byte[bm.blockSize];
      var inode := new Inode(buffer);
      inode.Format(kind, bm.blockSize, now);
      image := buffer[..];
      assert inode.Shows(bm.blockSize, File(bid, kind, 0, now, [], INVALID_BLOCK_ID));
      bm.WriteBlock(bid, buffer);
      forall q | 0 <= q < maxInodeSupported ensures Table().At(bm.disk, q) == Table().At(old(bm.disk), q) {
        Table().Frame(old(bm.disk), bm.disk, q);
      }
      Map().Frame(old(bm.disk), bm.disk);
    }

    /** Outside the table and the bitmap only block `bid` differs. */
    ghost predicate SameButFor(d: Disk, e: Disk, bid: nat) {
      |d| == |e| && forall b | 0 <= b < |d| && b != bid && !(1 <= b < GetReservedBlocks()) :: d[b] == e[b]
    }

    /** Clears bit `rawId` of the bitmap. */
    method ClearInode(rawId: nat)
      requires Valid() && rawId < maxInodeSupported
      modifies bm`disk, bm.data
      ensures Valid() && SameOutside(old(bm.disk), bm.disk, 1 + nTableBlocks, GetReservedBlocks())
      ensures FreeInodes() == old(FreeInodes()) + {rawId}
      ensures forall q | 0 <= q < maxInodeSupported :: Table().At(bm.disk, q) == Table().At(old(bm.disk), q)
    {
      var bitsPerBlock := bm.blockSize * BITS_PER_BYTE;
      RowColDivMod(rawId, bitsPerBlock);
      var bitmapBlock := 1 + nTableBlocks + rawId / bitsPerBlock;
      var buffer := new byte[bm.blockSize](_ => 0);
      bm.ReadBlock(bitmapBlock, buffer);
      var bitmap := new Bitmap(buffer, bm.blockSize);
      assert bitmap.Contents() == bm.disk[bitmapBlock];
      bitmap.Clear(rawId % bitsPerBlock);
      assert bitmap.Contents() == buffer[..];
      bm.WriteBlock(bitmapBlock, buffer);
      BitStored(old(bm.disk), rawId, false, bm.disk);
    }

    /** Forgets the inode: its table entry becomes invalid and its bit is cleared. */
    method FreeInode(id: nat) returns (r: Result<()>)
      requires Valid()
      modifies bm`disk, bm.data
      ensures Valid() && SameOutside(old(bm.disk), bm.disk, 1, GetReservedBlocks())
      ensures r == if id >= maxInodeSupported - 1 then Err(InvalidArg) else if id == 0 then Err(Fault) else Ok(())
      ensures r.Err? ==> bm.disk == old(bm.disk)
      ensures r.Ok? ==>
        && FreeInodes() == old(FreeInodes()) + {id - 1}
        && forall q | 0 <= q < maxInodeSupported ::
             Table().At(bm.disk, q) == if q == id - 1 then INVALID_BLOCK_ID else Table().At(old(bm.disk), q)
    {
      if id >= maxInodeSupported - 1 {
        return Err(InvalidArg);
      }
      if id == 0 {
        return Err(Fault);
      }
      var rawId := id - 1;
      SetTable(rawId, INVALID_BLOCK_ID);
      ClearInode(rawId);
      r := Ok(());
    }

    /** The number of inode numbers not in use. */
    method FreeInodeCnt() returns (n: nat)
      requires Valid()
      ensures n == |FreeInodes()|
    {
      hide Region.FreeBefore, Region.FreeSet, InodeTable.Shaped, BlockManager.Valid, Zeros;
      var iter := BitmapBlocks();
      ghost var count := 0;
      n := 0;
      Map().CountAll(bm.disk);
      while iter.HasNext()
        invariant Valid() && bm.disk == old(bm.disk) && fresh(iter) && fresh(iter.buffer) && OnBitmap(iter, count)
        invariant n == |Map().FreeBefore(bm.disk, count, 0)|
        decreases nBitmapBlocks - count
      {
        var bitmap := new Bitmap(iter.buffer, bm.blockSize);
        assert bitmap.Contents() == iter.buffer[..] == bm.disk[1 + nTableBlocks + count];
        var zeros := bitmap.CountZeros();
        n := n + zeros;
        Map().CountBlock(bm.disk, count);
        NextBitmapBlock(iter, count);
        count := count + 1;
      }
    }
  }
}
