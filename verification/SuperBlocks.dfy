/** The super block: the sizes a volume was made with. */
module SuperBlocks {
  import opened Bytes
  import opened BlockDevice
  import opened Inodes

  const SUPER_SIZE: nat := 32
  const OFF_SB_BLOCK_SIZE: nat := 0
  const OFF_SB_NBLOCKS: nat := 8
  const OFF_SB_NINODES: nat := 16

  /** Block `s` records the given sizes; the padding and the size of the file system are never set. */
  ghost predicate SuperRep(s: Block, blockSize: nat, nblocks: nat, ninodes: nat) {
    && SUPER_SIZE <= |s|
    && U32At(s, OFF_SB_BLOCK_SIZE) == blockSize
    && U64At(s, OFF_SB_NBLOCKS) == nblocks
    && U64At(s, OFF_SB_NINODES) == ninodes
  }

  class SuperBlock {
    const bm: BlockManager
    /** The record as it is in memory. */
    const inner: array<byte>

    ghost predicate Shows(ninodes: nat)
      reads inner
    {
      inner.Length == SUPER_SIZE && SuperRep(inner[..], bm.blockSize, bm.blockCnt, ninodes)
    }

    constructor (bm: BlockManager, ninodes: u64)
      requires SUPER_SIZE <= bm.blockSize < 0x1_0000_0000 && bm.blockCnt < 0x1_0000_0000
      ensures this.bm == bm && fresh(inner) && Shows(ninodes)
    {
      this.bm := bm;
      var a := new byte[SUPER_SIZE];
      inner := a;
      new;
      Stores(a[..], bm.blockSize, bm.blockCnt, ninodes);
      StoreU32(a, OFF_SB_BLOCK_SIZE, bm.blockSize);
      StoreU64(a, OFF_SB_NBLOCKS, bm.blockCnt);
      StoreU64(a, OFF_SB_NINODES, ninodes);
    }

    static lemma Stores(s: seq<byte>, bs: u32, n: u64, ni: u64)
      requires |s| == SUPER_SIZE
      ensures var t := Splice(s, OFF_SB_BLOCK_SIZE, ToBytes(bs, 4));
        var u := Splice(t, OFF_SB_NBLOCKS, ToBytes(n, 8));
        SuperRep(Splice(u, OFF_SB_NINODES, ToBytes(ni, 8)), bs, n, ni)
    {
      var b, c, d := ToBytes(bs, 4), ToBytes(n, 8), ToBytes(ni, 8);
      var t := Splice(s, OFF_SB_BLOCK_SIZE, b);
      SpliceU32(s, OFF_SB_BLOCK_SIZE, bs);
      var u := Splice(t, OFF_SB_NBLOCKS, c);
      SpliceU64(t, OFF_SB_NBLOCKS, n);
      SpliceKeeps32(t, OFF_SB_NBLOCKS, c, OFF_SB_BLOCK_SIZE);
      SpliceU64(u, OFF_SB_NINODES, ni);
      SpliceKeeps32(u, OFF_SB_NINODES, d, OFF_SB_BLOCK_SIZE);
      SpliceKeeps64(u, OFF_SB_NINODES, d, OFF_SB_NBLOCKS);
    }

    /** Reads the record back from block `id`, whatever is there. */
    constructor FromExisting(bm: BlockManager, id: nat)
      requires bm.Valid() && SUPER_SIZE <= bm.blockSize && id < bm.blockCnt
      ensures this.bm == bm && fresh(inner) && inner[..] == bm.disk[id][..SUPER_SIZE]
    {
      this.bm := bm;
      var buffer := new byte[bm.blockSize](_ => 0);
      bm.ReadBlock(id, buffer);
      var a := new byte[SUPER_SIZE](i requires 0 <= i < SUPER_SIZE <= buffer.Length reads buffer => buffer[i]);
      inner := a;
      new;
      assert inner[..] == buffer[..][..SUPER_SIZE];
    }

    /** Writes the record to the front of block `id`. */
    method Flush(id: nat, ghost ninodes: nat)
      requires bm.Valid() && Shows(ninodes) && inner != bm.data
      requires SUPER_SIZE <= bm.blockSize && id < bm.blockCnt
      modifies bm`disk, bm.data
      ensures bm.Valid() && SameOutside(old(bm.disk), bm.disk, id, id + 1)
      ensures SuperRep(bm.disk[id], bm.blockSize, bm.blockCnt, ninodes)
    {
      assert inner[..SUPER_SIZE] == inner[..];
      bm.WritePartialBlock(id, inner, 0, SUPER_SIZE);
      assert bm.disk[id][..SUPER_SIZE] == inner[..];
      FrontKept(bm.disk[id], bm.blockSize, bm.blockCnt, ninodes);
    }

    function GetNInodes(): u64
      requires inner.Length == SUPER_SIZE
      reads inner
    {
      U64At(inner[..], OFF_SB_NINODES)
    }
  }

  /** Only the front of the block counts. */
  lemma FrontKept(s: Block, blockSize: nat, nblocks: nat, ninodes: nat)
    requires SUPER_SIZE <= |s|
    ensures SuperRep(s[..SUPER_SIZE], blockSize, nblocks, ninodes) <==> SuperRep(s, blockSize, nblocks, ninodes)
    ensures U64At(s[..SUPER_SIZE], OFF_SB_NINODES) == U64At(s, OFF_SB_NINODES)
  {
    var t := s[..SUPER_SIZE];
    assert t[0..4] == s[0..4] && t[8..16] == s[8..16] && t[16..24] == s[16..24];
  }
}
