/** The inode: a header, the ids of the direct blocks, and the id of the indirect block, laid out in
    one block. */
module Inodes {
  import opened Bytes
  import opened Results
  import opened BlockDevice
  import opened Allocator

  datatype Kind = Unknown | Regular | Directory

  datatype Attr = Attr(atime: u64, mtime: u64, ctime: u64, size: nat)

  const HEADER_SIZE: nat := 44
  const OFF_KIND: nat := 0
  const OFF_ATIME: nat := 4
  const OFF_MTIME: nat := 12
  const OFF_CTIME: nat := 20
  const OFF_SIZE: nat := 28
  const OFF_BLOCK_SIZE: nat := 36
  const OFF_NBLOCKS: nat := 40
  const INVALID_BLOCK_ID: u64 := 0

  function KindCode(k: Kind): u32 {
    match k
    case Unknown => 0
    case Regular => 1
    case Directory => 2
  }

  function KindOf(c: u32): Kind {
    if c == 1 then Regular else if c == 2 then Directory else Unknown
  }

  // ---- Geometry ----

  /** Block sizes for which an inode has room for at least the indirect slot and all bit counts fit
      the source's 32-bit `usize`. */
  predicate BlockSizeOk(bs: nat) {
    52 <= bs && 8 * bs < 0x1_0000_0000
  }

  /** Slots of an inode, the last one being that of the indirect block. */
  function NBlocks(bs: nat): nat
    requires BlockSizeOk(bs)
  {
    (bs - HEADER_SIZE) / 8
  }

  function Direct(bs: nat): nat
    requires BlockSizeOk(bs)
  {
    NBlocks(bs) - 1
  }

  /** Block ids in an indirect block. */
  function Entries(bs: nat): nat {
    bs / 8
  }

  function MaxFileSize(bs: nat): nat
    requires BlockSizeOk(bs)
  {
    Entries(bs) * bs + Direct(bs) * bs
  }

  // ---- What the bytes of an inode mean ----

  /** An inode and its block list, decoded: the block the inode is in, the data blocks in file order, and
      the indirect block (0 if none). */
  datatype File = File(home: nat, kind: Kind, size: nat, stamp: u64, data: seq<nat>, ind: nat)

  function Slot(s: Block, k: nat): u64
    requires HEADER_SIZE + 8 * k + 8 <= |s|
  {
    U64At(s, HEADER_SIZE + 8 * k)
  }

  function Entry(s: Block, k: nat): u64
    requires 8 * k + 8 <= |s|
  {
    U64At(s, 8 * k)
  }

  ghost predicate HeaderRep(bs: nat, h: seq<byte>, f: File)
    requires |h| == HEADER_SIZE && BlockSizeOk(bs)
  {
    && U32At(h, OFF_KIND) == KindCode(f.kind)
    && U64At(h, OFF_ATIME) == U64At(h, OFF_MTIME) == U64At(h, OFF_CTIME) == f.stamp
    && U64At(h, OFF_SIZE) == f.size
    && U32At(h, OFF_BLOCK_SIZE) == bs
    && U32At(h, OFF_NBLOCKS) == NBlocks(bs)
  }

  /** What slot `k` of an inode of `f` holds: a data block, zero past the last one, and in the last slot
      the indirect block. */
  function SlotOf(bs: nat, f: File, k: nat): nat
    requires BlockSizeOk(bs)
  {
    if k == Direct(bs) then f.ind else if k < |f.data| then f.data[k] else INVALID_BLOCK_ID
  }

  /** Block `s` is the inode of `f`. */
  ghost predicate InodeRep(bs: nat, s: Block, f: File) {
    && BlockSizeOk(bs) && |s| == bs
    && HeaderRep(bs, s[..HEADER_SIZE], f)
    && forall k | 0 <= k < NBlocks(bs) :: Slot(s, k) == SlotOf(bs, f, k)
  }

  /** Block `t` is an indirect block for `f`. What it holds past the last data block does not matter. */
  ghost predicate TableRep(bs: nat, t: Block, f: File) {
    && BlockSizeOk(bs) && |t| == bs
    && |f.data| <= Direct(bs) + Entries(bs)
    && forall j | 0 <= j < |f.data| - Direct(bs) :: Entry(t, j) == f.data[Direct(bs) + j]
  }

  // ---- Stores ----

  method StoreU64(a: array<byte>, off: nat, v: u64)
    requires off + 8 <= a.Length
    modifies a
    ensures a[..] == Splice(old(a[..]), off, ToBytes(v, 8))
  {
    var t := ToBytes(v, 8);
    forall i | 0 <= i < 8 { a[off + i] := t[i]; }
  }

  method StoreU32(a: array<byte>, off: nat, v: u32)
    requires off + 4 <= a.Length
    modifies a
    ensures a[..] == Splice(old(a[..]), off, ToBytes(v, 4))
  {
    var t := ToBytes(v, 4);
    forall i | 0 <= i < 4 { a[off + i] := t[i]; }
  }

  lemma SlotStored(s: Block, k: nat, v: u64, j: nat)
    requires HEADER_SIZE + 8 * k + 8 <= |s| && HEADER_SIZE + 8 * j + 8 <= |s|
    ensures var t := Splice(s, HEADER_SIZE + 8 * k, ToBytes(v, 8));
      t[..HEADER_SIZE] == s[..HEADER_SIZE] && Slot(t, j) == if j == k then v else Slot(s, j)
  {
    if j == k {
      SpliceU64(s, HEADER_SIZE + 8 * k, v);
    } else {
      SpliceKeeps64(s, HEADER_SIZE + 8 * k, ToBytes(v, 8), HEADER_SIZE + 8 * j);
    }
  }

  lemma EntryStored(s: Block, k: nat, v: u64, j: nat)
    requires 8 * k + 8 <= |s| && 8 * j + 8 <= |s|
    ensures Entry(Splice(s, 8 * k, ToBytes(v, 8)), j) == if j == k then v else Entry(s, j)
  {
    if j == k {
      SpliceU64(s, 8 * k, v);
    } else {
      SpliceKeeps64(s, 8 * k, ToBytes(v, 8), 8 * j);
    }
  }

  /** Storing slot `k` turns the inode of `f` into that of `g` when nothing but slot `k` tells them
      apart. */
  lemma InodeSlotStored(bs: nat, s: Block, f: File, k: nat, v: u64, g: File)
    requires InodeRep(bs, s, f) && k < NBlocks(bs)
    requires g.kind == f.kind && g.size == f.size && g.stamp == f.stamp
    requires forall j | 0 <= j < NBlocks(bs) :: SlotOf(bs, g, j) == if j == k then v else SlotOf(bs, f, j)
    ensures InodeRep(bs, Splice(s, HEADER_SIZE + 8 * k, ToBytes(v, 8)), g)
  {
    var t := Splice(s, HEADER_SIZE + 8 * k, ToBytes(v, 8));
    forall j | 0 <= j < NBlocks(bs) ensures Slot(t, j) == SlotOf(bs, g, j) {
      SlotStored(s, k, v, j);
    }
    SlotStored(s, k, v, 0);
  }

  /** The header with one time or size field replaced. */
  lemma HeaderStored(bs: nat, s: Block, off: nat, v: u64)
    requires BlockSizeOk(bs) && |s| == bs && off in {OFF_ATIME, OFF_MTIME, OFF_CTIME, OFF_SIZE}
    ensures var t := Splice(s, off, ToBytes(v, 8)); var h, g := s[..HEADER_SIZE], t[..HEADER_SIZE];
      && U32At(g, OFF_KIND) == U32At(h, OFF_KIND)
      && U32At(g, OFF_BLOCK_SIZE) == U32At(h, OFF_BLOCK_SIZE) && U32At(g, OFF_NBLOCKS) == U32At(h, OFF_NBLOCKS)
      && (forall at | at in {OFF_ATIME, OFF_MTIME, OFF_CTIME, OFF_SIZE} ::
            U64At(g, at) == if at == off then v else U64At(h, at))
      && forall k | 0 <= k < NBlocks(bs) :: Slot(t, k) == Slot(s, k)
  {
    var w := ToBytes(v, 8);
    var t, h := Splice(s, off, w), s[..HEADER_SIZE];
    assert t[..HEADER_SIZE] == Splice(h, off, w);
    SpliceKeeps32(h, off, w, OFF_KIND);
    SpliceKeeps32(h, off, w, OFF_BLOCK_SIZE);
    SpliceKeeps32(h, off, w, OFF_NBLOCKS);
    SpliceU64(h, off, v);
    forall at | at in {OFF_ATIME, OFF_MTIME, OFF_CTIME, OFF_SIZE} && at != off
      ensures U64At(Splice(h, off, w), at) == U64At(h, at)
    {
      SpliceKeeps64(h, off, w, at);
    }
    forall k | 0 <= k < NBlocks(bs) ensures Slot(t, k) == Slot(s, k) {
      SpliceKeeps64(s, off, w, HEADER_SIZE + 8 * k);
    }
  }

  /** An inode seen through the buffer its block was read into. */
  class Inode {
    const data: array<byte>

    constructor (data: array<byte>)
      ensures this.data == data
    {
      this.data := data;
    }

    /** The buffer holds the inode of `f`. */
    ghost predicate Shows(bs: nat, f: File)
      reads data
    {
      InodeRep(bs, data[..], f)
    }

    function GetSize(): u64
      requires data.Length >= HEADER_SIZE
      reads data
    {
      U64At(data[..], OFF_SIZE)
    }

    function GetKind(): Kind
      requires data.Length >= HEADER_SIZE
      reads data
    {
      KindOf(U32At(data[..], OFF_KIND))
    }

    function GetAttr(): Attr
      requires data.Length >= HEADER_SIZE
      reads data
    {
      Attr(U64At(data[..], OFF_ATIME), U64At(data[..], OFF_MTIME), U64At(data[..], OFF_CTIME), GetSize())
    }

    function GetNBlocks(): u32
      requires data.Length >= HEADER_SIZE
      reads data
    {
      U32At(data[..], OFF_NBLOCKS)
    }

    function GetBlockSize(): u32
      requires data.Length >= HEADER_SIZE
      reads data
    {
      U32At(data[..], OFF_BLOCK_SIZE)
    }

    /** `blocks[k]` */
    function Block(k: nat): u64
      requires HEADER_SIZE + 8 * k + 8 <= data.Length
      reads data
    {
      Slot(data[..], k)
    }

    /** The header fields read what the inode of `f` says. */
    lemma Reads(bs: nat, f: File)
      requires Shows(bs, f)
      ensures HEADER_SIZE <= data.Length == bs
      ensures GetSize() == f.size && GetKind() == f.kind
      ensures GetNBlocks() == NBlocks(bs) == GetDirectBlockNum() + 1 && GetBlockSize() == bs
      ensures GetDirectBlockNum() == Direct(bs)
      ensures GetAttr() == Attr(f.stamp, f.stamp, f.stamp, f.size)
      ensures MaxFileSzSupported() == MaxFileSize(bs)
    {
      var s := data[..];
      var h := s[..HEADER_SIZE];
      forall off | 0 <= off <= HEADER_SIZE - 8 ensures U64At(s, off) == U64At(h, off) {
        assert s[off..off + 8] == h[off..off + 8];
      }
      forall off | 0 <= off <= HEADER_SIZE - 4 ensures U32At(s, off) == U32At(h, off) {
        assert s[off..off + 4] == h[off..off + 4];
      }
    }

    function GetDirectBlockNum(): int
      requires data.Length >= HEADER_SIZE
      reads data
    {
      GetNBlocks() - 1
    }

    predicate IsDirectBlock(idx: nat)
      requires data.Length >= HEADER_SIZE
      reads data
    {
      idx < GetNBlocks() - 1
    }

    function MaxFileSzSupported(): int
      requires data.Length >= HEADER_SIZE
      reads data
    {
      var maxBlocksInBlock := GetBlockSize() / 8;
      maxBlocksInBlock * GetBlockSize() + (GetNBlocks() - 1) * GetBlockSize()
    }

    /** `blocks[k] = id` */
    method SetBlock(k: nat, id: u64, ghost bs: nat, ghost f: File, ghost g: File)
      requires Shows(bs, f) && k < NBlocks(bs)
      requires g.kind == f.kind && g.size == f.size && g.stamp == f.stamp
      requires forall j | 0 <= j < NBlocks(bs) :: SlotOf(bs, g, j) == if j == k then id else SlotOf(bs, f, j)
      modifies data
      ensures Shows(bs, g)
    {
      InodeSlotStored(bs, data[..], f, k, id, g);
      StoreU64(data, HEADER_SIZE + 8 * k, id);
    }

    method SetSize(n: u64, ghost bs: nat, ghost f: File)
      requires Shows(bs, f)
      modifies data
      ensures Shows(bs, f.(size := n))
    {
      HeaderStored(bs, data[..], OFF_SIZE, n);
      StoreU64(data, OFF_SIZE, n);
    }

    method SetAllTime(now: u64, ghost bs: nat, ghost f: File)
      requires Shows(bs, f)
      modifies data
      ensures Shows(bs, f.(stamp := now))
    {
      hide U32At, U64At, FromBytes, ToBytes;
      HeaderStored(bs, data[..], OFF_ATIME, now);
      StoreU64(data, OFF_ATIME, now);
      HeaderStored(bs, data[..], OFF_MTIME, now);
      StoreU64(data, OFF_MTIME, now);
      HeaderStored(bs, data[..], OFF_CTIME, now);
      StoreU64(data, OFF_CTIME, now);
    }

    /** The indirect block of the inode, allocated now if it has none. */
    method GetOrInsertIndirectBlock(allocator: BlockAllocator, ghost bs: nat, ghost f: File) returns (r: Result<nat>)
      requires Shows(bs, f) && allocator.Valid() && data != allocator.bm.data
      requires allocator.bm.blockCnt < 0x1_0000_0000
      modifies data, allocator.bm`disk, allocator.bm.data
      ensures allocator.Valid() && allocator.OnlyMapChanged(old(allocator.bm.disk))
      ensures f.ind != INVALID_BLOCK_ID ==>
        r == Ok(f.ind) && Shows(bs, f) && allocator.Free() == old(allocator.Free())
      ensures f.ind == INVALID_BLOCK_ID ==> IsLeastFree(old(allocator.Free()), r)
      ensures f.ind == INVALID_BLOCK_ID && r.Ok? ==>
        Shows(bs, f.(ind := r.value)) && allocator.Free() == old(allocator.Free()) - {r.value}
      ensures r.Err? ==> allocator.Free() == {}
    {
      Reads(bs, f);
      if Block(GetNBlocks() - 1) == INVALID_BLOCK_ID {
        var bid := allocator.Allocate();
        if bid.Err? {
          return Err(bid.error);
        }
        SetBlock(GetNBlocks() - 1, bid.value, bs, f, f.(ind := bid.value));
      }
      r := Ok(Block(NBlocks(data.Length) - 1));
    }

    method InvalidIndirectBlockId(ghost bs: nat, ghost f: File)
      requires Shows(bs, f)
      modifies data
      ensures Shows(bs, f.(ind := INVALID_BLOCK_ID))
    {
      Reads(bs, f);
      SetBlock(GetNBlocks() - 1, INVALID_BLOCK_ID, bs, f, f.(ind := INVALID_BLOCK_ID));
    }

    /** Writes the buffer to the indirect block. */
    method WriteIndirectBlock(bm: BlockManager, buffer: array<byte>) returns (r: Result<()>)
      requires bm.Valid() && BlockSizeOk(bm.blockSize)
      requires buffer != bm.data && buffer.Length == bm.blockSize == data.Length
      requires GetNBlocks() == NBlocks(bm.blockSize) && Block(GetNBlocks() - 1) < bm.blockCnt
      modifies bm`disk, bm.data
      ensures bm.Valid()
      ensures var b := old(Block(GetNBlocks() - 1));
        if b == INVALID_BLOCK_ID then r == Err(InvalidArg) && bm.disk == old(bm.disk)
        else r == Ok(()) && bm.disk == old(bm.disk)[b := buffer[..]]
    {
      if Block(GetNBlocks() - 1) == INVALID_BLOCK_ID {
        return Err(InvalidArg);
      }
      bm.WriteBlock(Block(GetNBlocks() - 1), buffer);
      r := Ok(());
    }

    /** Zeros every slot behind the header. */
    method ClearSlots(blockSize: nat)
      requires BlockSizeOk(blockSize) && data.Length == blockSize
      modifies data
      ensures data[..HEADER_SIZE] == old(data[..HEADER_SIZE])
      ensures forall j | 0 <= j < NBlocks(blockSize) :: Slot(data[..], j) == INVALID_BLOCK_ID
    {
      hide FromBytes, ToBytes, U64At;
      for k := 0 to NBlocks(blockSize)
        invariant data[..HEADER_SIZE] == old(data[..HEADER_SIZE])
        invariant forall j | 0 <= j < k :: Slot(data[..], j) == INVALID_BLOCK_ID
      {
        SlotCleared(data[..], k);
        StoreU64(data, HEADER_SIZE + 8 * k, INVALID_BLOCK_ID);
        assert data[..HEADER_SIZE] == data[..][..HEADER_SIZE];
      }
    }

    static lemma SlotCleared(s: Block, k: nat)
      requires HEADER_SIZE + 8 * k + 8 <= |s| && forall j | 0 <= j < k :: Slot(s, j) == INVALID_BLOCK_ID
      ensures var t := Splice(s, HEADER_SIZE + 8 * k, ToBytes(INVALID_BLOCK_ID, 8));
        t[..HEADER_SIZE] == s[..HEADER_SIZE] && forall j | 0 <= j < k + 1 :: Slot(t, j) == INVALID_BLOCK_ID
    {
      hide FromBytes, ToBytes, U64At, Slot;
      var t := Splice(s, HEADER_SIZE + 8 * k, ToBytes(INVALID_BLOCK_ID, 8));
      SlotStored(s, k, INVALID_BLOCK_ID, k);
      forall j | 0 <= j < k ensures Slot(t, j) == INVALID_BLOCK_ID {
        SlotStored(s, k, INVALID_BLOCK_ID, j);
      }
    }

    /** Lays out a new, empty inode: the header, then `nblocks` zero slots. */
    method Format(kind: Kind, blockSize: nat, now: u64)
      requires BlockSizeOk(blockSize) && data.Length == blockSize
      modifies data
      ensures forall home :: Shows(blockSize, File(home, kind, 0, now, [], INVALID_BLOCK_ID))
    {
      hide FromBytes, ToBytes, U64At, U32At, HeaderRep, Slot;
      var h := ToBytes(KindCode(kind), 4) + ToBytes(now, 8) + ToBytes(now, 8) + ToBytes(now, 8) + ToBytes(0, 8)
        + ToBytes(blockSize, 4) + ToBytes(NBlocks(blockSize), 4);
      forall i | 0 <= i < HEADER_SIZE { data[i] := h[i]; }
      assert data[..HEADER_SIZE] == h;
      NewHeader(blockSize, kind, now, h);
      ClearSlots(blockSize);
      assert data[..][..HEADER_SIZE] == h;
    }

    static lemma HeaderParts(a: seq<byte>, b: seq<byte>, c: seq<byte>, d: seq<byte>, e: seq<byte>, h: seq<byte>)
      requires |a| == |d| == |e| == 4 && |b| == |c| == 8
      requires h == a + b + b + b + c + d + e
      ensures |h| == HEADER_SIZE
      ensures h[0..4] == a && h[4..12] == h[12..20] == h[20..28] == b
      ensures h[28..36] == c && h[36..40] == d && h[40..44] == e
    {
    }

    static lemma NewHeader(bs: nat, kind: Kind, now: u64, h: seq<byte>)
      requires BlockSizeOk(bs)
      requires h == ToBytes(KindCode(kind), 4) + ToBytes(now, 8) + ToBytes(now, 8) + ToBytes(now, 8) + ToBytes(0, 8)
        + ToBytes(bs, 4) + ToBytes(NBlocks(bs), 4)
      ensures |h| == HEADER_SIZE
      ensures forall home :: HeaderRep(bs, h, File(home, kind, 0, now, [], INVALID_BLOCK_ID))
    {
      HeaderParts(
        ToBytes(KindCode(kind), 4), ToBytes(now, 8), ToBytes(0, 8), ToBytes(bs, 4), ToBytes(NBlocks(bs), 4), h);
      Stored32(h, OFF_KIND, KindCode(kind));
      Stored64(h, OFF_ATIME, now);
      Stored64(h, OFF_MTIME, now);
      Stored64(h, OFF_CTIME, now);
      Stored64(h, OFF_SIZE, 0);
      Stored32(h, OFF_BLOCK_SIZE, bs);
      Stored32(h, OFF_NBLOCKS, NBlocks(bs));
    }
  }
}
