/** The sizes of a volume, from the block size, the number of blocks and the number of inodes alone: how much an
    inode and an indirect block name, and how little the metadata takes. */
module Geometry {
  import opened BlockDevice
  import opened Regions
  import opened Inodes
  import opened InodeManagers
  import A = AbstractFs

  // ---- Rounding up ----

  /** `c` rows of length `m` hold `n` places exactly if they are no fewer than `CeilDiv` says. */
  lemma RowsHold(n: nat, m: nat, c: nat)
    requires m > 0
    ensures CeilDiv(n, m) <= c <==> n <= c * m
  {
    CeilDivBounds(n, m);
    if CeilDiv(n, m) <= c {
      MulMono(CeilDiv(n, m), c, m);
    } else {
      MulMono(c, CeilDiv(n, m) - 1, m);
    }
  }

  lemma RoundedUp(n: nat, m: nat)
    requires m > 0
    ensures CeilDiv(n, m) == (n + m - 1) / m
  {
    var q, r := DivMod(n + m - 1, m);
    CeilDivUnique(n, m, q);
  }

  // ---- What an inode names ----

  /** The block sizes for which an inode has a slot, and a block no more bits than 32-bit sizes can count. */
  lemma LegalSizes(bs: nat)
    ensures BlockSizeOk(bs) <==> 52 <= bs < 0x2000_0000
  {
  }

  /** An inode has as many slots as fit behind its 44 bytes, all but one of them for data blocks; an indirect
      block has as many ids as fit, and that limits the size of a file. */
  lemma InodeRoom(bs: nat)
    requires BlockSizeOk(bs)
    ensures 44 + 8 * NBlocks(bs) <= bs < 44 + 8 * NBlocks(bs) + 8 && Direct(bs) + 1 == NBlocks(bs)
    ensures 8 * Entries(bs) <= bs < 8 * Entries(bs) + 8
    ensures MaxFileSize(bs) == ((bs - 44) / 8 - 1 + bs / 8) * bs
  {
  }

  /** The blocks of a file of `size` bytes besides that of its inode: one for each block size begun, and one more
      once the slots for data blocks do not suffice. */
  lemma BlocksOfFile(bs: nat, size: nat)
    requires BlockSizeOk(bs)
    ensures var data := (size + bs - 1) / bs; A.Cost(bs, size) == data + if data > (bs - 44) / 8 - 1 then 1 else 0
    ensures A.Cost(bs, size) == (size + bs - 1) / bs + if size <= ((bs - 44) / 8 - 1) * bs then 0 else 1
  {
    RoundedUp(size, bs);
    RowsHold(size, bs, (bs - 44) / 8 - 1);
    hide CeilDiv;
  }

  // ---- The metadata ----

  /** No part of the metadata could be smaller: `c` blocks are enough for the inode table exactly if they hold one
      8-byte entry per inode, for the inode bitmap if they hold one bit per inode asked for, and for the block
      bitmap if they hold one bit per block. The inodes are as many as the blocks of their bitmap have bits, the
      least such number that is no smaller than what was asked for. */
  lemma MetadataLeast(bs: nat, total: nat, n: nat, c: nat)
    requires BlockSizeOk(bs)
    ensures var inodes := SupportedFor(n, bs);
      && (TableBlocksFor(inodes, bs) <= c <==> inodes <= c * (bs / 8))
      && (BitmapBlocksFor(n, bs) <= c <==> n <= c * (8 * bs))
      && (CeilDiv(total, 8 * bs) <= c <==> total <= c * (8 * bs))
      && inodes == BitmapBlocksFor(n, bs) * (8 * bs) && n <= inodes && (n <= c * (8 * bs) ==> inodes <= c * (8 * bs))
      && ReservedFor(n, bs) == 1 + TableBlocksFor(inodes, bs) + BitmapBlocksFor(n, bs)
  {
    RowsHold(SupportedFor(n, bs), bs / 8, c);
    RowsHold(n, 8 * bs, c);
    RowsHold(n, 8 * bs, BitmapBlocksFor(n, bs));
    RowsHold(total, 8 * bs, c);
    hide CeilDiv;
    if n <= c * (8 * bs) { MulMono(BitmapBlocksFor(n, bs), c, 8 * bs); }
  }

  /** No block before the data is left unused: it is the super block, or the first entry in it is that of an
      inode, or the first bit in it is that of an inode or of a block. */
  lemma MetadataUsed(bs: nat, total: nat, n: nat, b: nat)
    requires BlockSizeOk(bs) && b < ReservedFor(n, bs) + CeilDiv(total, 8 * bs)
    ensures var inodes := SupportedFor(n, bs);
      var inodeMap := 1 + TableBlocksFor(inodes, bs);
      var blockMap := ReservedFor(n, bs);
      || b == 0
      || (0 < b < inodeMap && (b - 1) * (bs / 8) < inodes)
      || (inodeMap <= b < blockMap && (b - inodeMap) * (8 * bs) < inodes)
      || (blockMap <= b && (b - blockMap) * (8 * bs) < total)
  {
    var inodes := SupportedFor(n, bs);
    var inodeMap, blockMap := 1 + TableBlocksFor(inodes, bs), ReservedFor(n, bs);
    hide CeilDiv;
    if 0 < b < inodeMap {
      RowsHold(inodes, bs / 8, b - 1);
    } else if inodeMap <= b < blockMap {
      MulLessInstead(b - inodeMap, blockMap - inodeMap, 8 * bs);
    } else if blockMap <= b {
      RowsHold(total, 8 * bs, b - blockMap);
    }
  }

  lemma MulLessInstead(a: nat, b: nat, m: nat)
    requires a < b && m > 0
    ensures a * m < b * m
  {
  }

  /** The sizes of the metadata, all rounded up. */
  lemma MetadataSizes(bs: nat, total: nat, n: nat)
    requires BlockSizeOk(bs)
    ensures var maps := (n + 8 * bs - 1) / (8 * bs);
      && BitmapBlocksFor(n, bs) == maps && SupportedFor(n, bs) == maps * (8 * bs)
      && TableBlocksFor(maps * (8 * bs), bs) == (maps * (8 * bs) + bs / 8 - 1) / (bs / 8)
      && CeilDiv(total, 8 * bs) == (total + 8 * bs - 1) / (8 * bs)
  {
    RoundedUp(n, 8 * bs);
    RoundedUp(total, 8 * bs);
    RoundedUp(SupportedFor(n, bs), bs / 8);
    hide CeilDiv;
  }
}
