/** The block device: one byte array holding `blockCnt` blocks of `blockSize` bytes. */
module BlockDevice {
  import opened Bytes
  import opened Results

  type Disk = seq<Block>

  /** Every block of `d` has `bs` bytes. */
  ghost predicate Sized(d: Disk, bs: nat) {
    forall b | 0 <= b < |d| :: |d[b]| == bs
  }

  /** `d` and `e` agree on every block outside [lo, hi). */
  ghost predicate SameOutside(d: Disk, e: Disk, lo: nat, hi: nat) {
    |d| == |e| && forall b | 0 <= b < |d| && !(lo <= b < hi) :: d[b] == e[b]
  }

  /** Blocks lie inside the array and different blocks do not overlap. */
  lemma BlockBounds(b: nat, c: nat, cnt: nat, bs: nat)
    requires b < cnt && c < cnt
    ensures b * bs + bs == (b + 1) * bs <= cnt * bs
    ensures b < c ==> b * bs + bs <= c * bs
    ensures c < b ==> c * bs + bs <= b * bs
  {
    MulMono(b + 1, cnt, bs);
    if b < c { MulMono(b + 1, c, bs); }
    if c < b { MulMono(c + 1, b, bs); }
  }

  lemma MulMono(a: nat, b: nat, m: nat)
    requires a <= b
    ensures a * m <= b * m
  {
  }

  lemma MulDiv(k: nat, m: nat)
    requires m > 0
    ensures k * m / m == k
  {
    var p := k * m;
    var q := p / m;
    assert p == q * m + p % m;
    if q < k { MulMono(q + 1, k, m); }
    if k < q { MulMono(k + 1, q, m); }
  }

  class BlockManager {
    const blockSize: nat
    const blockCnt: nat
    const data: array<byte>
    /** The contents of `data`, block by block. */
    ghost var disk: Disk

    ghost predicate Valid()
      reads this, data
      ensures Valid() ==> |disk| == blockCnt && Sized(disk, blockSize)
    {
      && data.Length == blockCnt * blockSize
      && |disk| == blockCnt
      && Sized(disk, blockSize)
      && forall b | 0 <= b < blockCnt :: Holds(b, disk[b])
    }

    /** The bytes of block `b` on the device are `s`. */
    ghost predicate Holds(b: nat, s: Block)
      reads data
    {
      && |s| == blockSize && b * blockSize + blockSize <= data.Length
      && forall i | 0 <= i < blockSize :: data[b * blockSize + i] == s[i]
    }

    /** The memory-backed device; its initial contents are whatever the allocation holds. */
    constructor (blockCnt: nat, blockSize: nat)
      requires blockCnt * blockSize > 0
      ensures Valid() && fresh(data)
      ensures this.blockCnt == blockCnt && this.blockSize == blockSize
    {
      this.blockCnt, this.blockSize := blockCnt, blockSize;
      var a := new byte[blockCnt * blockSize];
      data := a;
      disk := seq(blockCnt, b requires 0 <= b < blockCnt && a.Length == blockCnt * blockSize reads a =>
        (BlockBounds(b, b, blockCnt, blockSize);
         a[b * blockSize..b * blockSize + blockSize]));
      new;
      forall b | 0 <= b < blockCnt ensures Holds(b, disk[b]) {
        BlockBounds(b, b, blockCnt, blockSize);
      }
    }

    method WritePartialBlock(id: nat, src: array<byte>, offset: nat, len: nat)
      requires Valid() && src != data
      requires id < blockCnt && offset + len <= blockSize && len <= src.Length
      modifies this`disk, data
      ensures Valid()
      ensures disk == old(disk)[id := Splice(old(disk)[id], offset, src[..len])]
    {
      BlockBounds(id, id, blockCnt, blockSize);
      forall i | 0 <= i < len { data[id * blockSize + offset + i] := src[i]; }
      disk := disk[id := Splice(disk[id], offset, src[..len])];
      forall b | 0 <= b < blockCnt ensures Holds(b, disk[b]) {
        BlockBounds(b, id, blockCnt, blockSize);
        assert old(Holds(b, disk[b]));
      }
    }

    method WriteBlock(id: nat, src: array<byte>)
      requires Valid() && src != data
      requires id < blockCnt && src.Length == blockSize
      modifies this`disk, data
      ensures Valid()
      ensures disk == old(disk)[id := src[..]]
    {
      WritePartialBlock(id, src, 0, blockSize);
      assert Splice(old(disk)[id], 0, src[..blockSize]) == src[..];
    }

    method ReadBlock(id: nat, dst: array<byte>)
      requires Valid() && dst != data
      requires id < blockCnt && dst.Length == blockSize
      modifies dst
      ensures Valid()
      ensures dst[..] == disk[id]
    {
      BlockBounds(id, id, blockCnt, blockSize);
      assert Holds(id, disk[id]);
      forall i | 0 <= i < blockSize { dst[i] := data[id * blockSize + i]; }
      forall b | 0 <= b < blockCnt ensures Holds(b, disk[b]) {
        assert old(Holds(b, disk[b]));
      }
    }

    method ZeroBlock(id: nat)
      requires Valid() && id < blockCnt
      modifies this`disk, data
      ensures Valid()
      ensures disk == old(disk)[id := seq(blockSize, _ => 0)]
    {
      var zeros := new byte[blockSize](_ => 0);
      WriteBlock(id, zeros);
      assert zeros[..] == seq(blockSize, _ => 0);
    }
  }

  /** Walks the blocks [start, end) of a device through a one-block buffer. */
  class BlockIterator {
    const bm: BlockManager
    const start: nat
    const end: nat
    var curOff: nat
    const buffer: array<byte>

    ghost predicate Valid()
      reads this, bm, bm.data
    {
      && bm.Valid() && bm.blockSize > 0
      && start <= end && start < bm.blockCnt && end <= bm.blockCnt
      && buffer.Length == bm.blockSize && buffer != bm.data
    }

    /** The device block the iterator stands on. */
    function Current(): nat
      requires bm.blockSize > 0
      reads this
    {
      start + curOff / bm.blockSize
    }

    /** The buffer shows the current block as it is on the device. */
    ghost predicate InSync()
      requires Valid()
      reads this, bm, bm.data, buffer
    {
      Current() < bm.blockCnt && buffer[..] == bm.disk[Current()]
    }

    constructor (bm: BlockManager, start: nat, end: nat)
      requires bm.Valid() && bm.blockSize > 0
      requires start <= end <= bm.blockCnt && start < bm.blockCnt
      ensures this.bm == bm && this.start == start && this.end == end
      ensures Valid() && InSync() && fresh(buffer) && curOff == 0
    {
      this.bm, this.start, this.end, curOff := bm, start, end, 0;
      var b := new byte[bm.blockSize];
      buffer := b;
      new;
      MulDiv(0, bm.blockSize);
      bm.ReadBlock(start, buffer);
    }

    predicate HasNext()
      reads this
    {
      curOff < (end - start) * bm.blockSize
    }

    /** While there is a next block the iterator stands inside its range. */
    lemma HasNextInside()
      requires bm.blockSize > 0 && start <= end
      ensures HasNext() <==> Current() < end
    {
      var q := curOff / bm.blockSize;
      if q < end - start {
        MulMono(q + 1, end - start, bm.blockSize);
      } else {
        MulMono(end - start, q, bm.blockSize);
      }
    }

    /** After `k` steps of a whole block the iterator stands on block `k` of its range, and there is a next
        block as long as the range has that many. */
    lemma AtBlock(k: nat)
      requires bm.blockSize > 0 && start <= end && curOff == k * bm.blockSize
      ensures Current() == start + k && (HasNext() <==> start + k < end)
      ensures curOff + bm.blockSize == (k + 1) * bm.blockSize && (curOff + bm.blockSize) / bm.blockSize == k + 1
    {
      MulDiv(k, bm.blockSize);
      MulDiv(k + 1, bm.blockSize);
      HasNextInside();
    }

    /** Moves `offset` bytes on, reading the new block if that is another one. Reaching `end` still
        reads that block, so it has to exist. */
    method Next(offset: nat) returns (r: Result<()>)
      requires Valid() && HasNext()
      requires start + (curOff + offset) / bm.blockSize == end ==> end < bm.blockCnt
      modifies this`curOff, buffer
      ensures Valid() && curOff == old(curOff) + offset
      ensures r == if Current() <= end then Ok(()) else Err(Finished)
      ensures Current() == old(Current()) || end < Current() ==> buffer[..] == old(buffer[..])
      ensures old(InSync()) && Current() <= end ==> InSync()
      ensures Current() != old(Current()) && Current() <= end ==> InSync()
    {
      HasNextInside();
      var prev := curOff / bm.blockSize;
      curOff := curOff + offset;
      var cur := curOff / bm.blockSize;
      if cur != prev {
        if start + cur > end {
          return Err(Finished);
        }
        bm.ReadBlock(start + cur, buffer);
      }
      r := Ok(());
    }

    /** A walk in steps of a whole block, as every loop over an iterator does it: it ends, and stands on each
        block of the range exactly once, in order, with that block in the buffer. */
    method Walk() returns (ghost visited: seq<nat>, blocks: seq<Block>)
      requires Valid() && InSync() && curOff == 0 && end < bm.blockCnt
      modifies this`curOff, buffer
      ensures Valid() && !HasNext()
      ensures visited == seq(end - start, i requires 0 <= i => start + i)
      ensures blocks == bm.disk[start..end]
    {
      visited, blocks := [], [];
      AtBlock(0);
      while HasNext()
        invariant Valid() && curOff == |visited| * bm.blockSize && start + |visited| <= end
        invariant HasNext() <==> start + |visited| < end
        invariant HasNext() ==> InSync() && Current() == start + |visited|
        invariant visited == seq(|visited|, i requires 0 <= i => start + i)
        invariant blocks == bm.disk[start..start + |visited|]
        decreases end - start - |visited|
      {
        AtBlock(|visited|);
        visited, blocks := visited + [Current()], blocks + [buffer[..]];
        var r := Next(bm.blockSize);
        AtBlock(|visited|);
      }
    }

    /** Writes the buffer back to the block it was read from, which lies in the range. */
    method FlushCurBlock()
      requires Valid() && HasNext()
      modifies bm`disk, bm.data
      ensures Valid() && InSync() && start <= Current() < end
      ensures bm.disk == old(bm.disk)[Current() := buffer[..]]
    {
      HasNextInside();
      bm.WriteBlock(start + curOff / bm.blockSize, buffer);
    }
  }
}
