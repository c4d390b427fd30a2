/** Where every byte of a volume is: the numbers on the device, from the block size, the number of blocks and the
    number of inodes alone. */
module OnDisk {
  import opened Bytes
  import opened Bitmaps
  import opened BlockDevice
  import opened Regions
  import opened Inodes
  import opened InodeManagers
  import opened Layout
  import opened FileSystem
  import opened Geometry

  // ---- Numbers and bits ----

  /** Numbers are stored with their lowest byte first. */
  lemma LittleEndian(s: seq<byte>, off: nat)
    ensures off + 4 <= |s| ==>
      U32At(s, off) == s[off] as int + 0x100 * s[off + 1] as int
                       + 0x1_0000 * s[off + 2] as int + 0x100_0000 * s[off + 3] as int
    ensures off + 8 <= |s| ==> U64At(s, off) == U32At(s, off) as int + 0x1_0000_0000 * U32At(s, off + 4) as int
  {
    if off + 4 <= |s| { FourBytes(s[off..off + 4]); }
    if off + 8 <= |s| {
      assert s[off..off + 8] == s[off..off + 4] + s[off + 4..off + 8];
      HighAndLow(s[off..off + 4], s[off + 4..off + 8]);
    }
    hide FromBytes;
  }

  lemma FourBytes(t: seq<byte>)
    requires |t| == 4
    ensures FromBytes(t)
      == t[0] as int + 0x100 * t[1] as int + 0x1_0000 * t[2] as int + 0x100_0000 * t[3] as int
  {
    hide *;
    var u, v, w := t[1..], t[2..], t[3..];
    assert u[1..] == v && v[1..] == w && w[1..] == [];
    FirstByte(t, []);
    FirstByte(u, []);
    FirstByte(v, []);
    FirstByte(w, []);
  }

  lemma HighAndLow(lo: seq<byte>, hi: seq<byte>)
    requires |lo| == 4
    ensures FromBytes(lo + hi) == FromBytes(lo) + 0x1_0000_0000 * FromBytes(hi)
  {
    hide *;
    var t, u, v := lo[1..], lo[2..], lo[3..];
    assert t[1..] == u && u[1..] == v && v[1..] == [] && [] + hi == hi;
    FirstByte(lo, hi);
    FirstByte(t, hi);
    FirstByte(u, hi);
    FirstByte(v, hi);
  }

  lemma FirstByte(lo: seq<byte>, hi: seq<byte>)
    requires lo != []
    ensures FromBytes(lo + hi) == lo[0] + 0x100 * FromBytes(lo[1..] + hi)
    ensures FromBytes(lo) == lo[0] + 0x100 * FromBytes(lo[1..]) && FromBytes([]) == 0
  {
    assert (lo + hi)[1..] == lo[1..] + hi;
  }

  /** Bit `i` of a block is in byte `i / 8`, counted from the lowest bit of the byte. */
  lemma BitOrder(s: seq<byte>, i: nat)
    requires i < 8 * |s|
    ensures BitAt(s, i) <==> s[i / 8] / [1, 2, 4, 8, 16, 32, 64, 128][i % 8] % 2 == 1
  {
    BitOfByte(s[i / 8], i % 8);
    hide Bit;
  }

  lemma BitOfByte(b: byte, k: nat)
    requires k < 8
    ensures Bit(b, k) <==> b / [1, 2, 4, 8, 16, 32, 64, 128][k] % 2 == 1
  {
    if k > 0 { BitOfByte(b / 2, k - 1); }
  }

  // ---- The metadata ----

  /** The super block: the three sizes, in its first bytes. They say where everything else is. */
  lemma SizesOnDisk(fs: FileOperation)
    requires fs.Valid()
    ensures var d, a := fs.bm.disk, fs.View();
      && |d| == fs.bm.blockCnt > 0 && |d[0]| == fs.bm.blockSize == a.bs >= 52
      && U32At(d[0], 0) == a.bs && U64At(d[0], 8) == fs.bm.blockCnt && U64At(d[0], 16) == a.maxInodes
      && BlockSizeOk(a.bs) && Consistent(GeoFor(a.bs, |d|, a.maxInodes), d, fs.files)
      && a == AbsOf(GeoFor(a.bs, |d|, a.maxInodes), d, fs.files)
  {
    hide Consistent;
  }

  /** What the callers see is what is there: the free blocks, counted, and each file. */
  lemma ViewOnDisk(g: Geo, d: Disk, files: map<nat, File>)
    requires g.Valid() && g.Fits(d)
    ensures var a := AbsOf(g, d, files);
      && a.free == |g.Free(d)| && a.files.Keys == files.Keys
      && forall r | r in files :: r in a.files && a.files[r] == AbsFile(d, files[r])
  {
  }

  /** Where the tables begin: the inode table at block 1, with 8 bytes for each inode; then the inode bitmap, and
      the block bitmap right after it. */
  lemma Starts(bs: nat, total: nat, n: nat)
    requires BlockSizeOk(bs)
    ensures var g := GeoFor(bs, total, n);
      && g.inodeMap.start == 1 + (n + bs / 8 - 1) / (bs / 8)
      && g.blockMap.start == g.inodeMap.start + (n + 8 * bs - 1) / (8 * bs)
  {
    RoundedUp(n, bs / 8);
    RoundedUp(n, 8 * bs);
    hide CeilDiv, LastRow;
  }

  /** The inode table begins at block 1: entry `c` of its block `q` is the block in which the inode of that
      number is, or 0 if there is no such file. */
  lemma TableOnDisk(g: Geo, d: Disk, files: map<nat, File>, q: nat, c: nat)
    requires Consistent(g, d, files) && c < g.BlockSize() / 8 && q * (g.BlockSize() / 8) + c < g.MaxInodes()
    ensures 1 + q < |d| && |d[1 + q]| == g.BlockSize() && 8 * c + 8 <= g.BlockSize()
    ensures var r := q * (g.BlockSize() / 8) + c; U64At(d[1 + q], 8 * c) == if r in files then files[r].home else 0
  {
    hide *;
    ConsistentParts(g, d, files);
    EntryOnDisk(g, d, files, q, c);
  }

  lemma EntryOnDisk(g: Geo, d: Disk, files: map<nat, File>, q: nat, c: nat)
    requires g.Valid() && g.Fits(d) && TablesRep(g, d, files)
    requires c < g.BlockSize() / 8 && q * (g.BlockSize() / 8) + c < g.MaxInodes()
    ensures 1 + q < |d| && |d[1 + q]| == g.BlockSize() && 8 * c + 8 <= g.BlockSize()
    ensures var r := q * (g.BlockSize() / 8) + c; U64At(d[1 + q], 8 * c) == if r in files then files[r].home else 0
  {
    hide *;
    TableEntry(g, d, files, q * (g.BlockSize() / 8) + c);
    AtPlace(g.table, d, q, c);
  }

  lemma TableEntry(g: Geo, d: Disk, files: map<nat, File>, r: nat)
    requires g.Valid() && g.Fits(d) && TablesRep(g, d, files) && r < g.MaxInodes()
    ensures g.table.Fits(d) && g.table.bs == g.BlockSize() && g.table.n == g.MaxInodes()
    ensures g.table.At(d, r) == if r in files then files[r].home else 0
  {
    hide Region.Shaped, Region.FreeSet, InodeTable.Shaped, InodeTable.At;
  }

  lemma AtPlace(t: InodeTable, d: Disk, q: nat, c: nat)
    requires t.Fits(d) && c < t.bs / 8 && q * (t.bs / 8) + c < t.n
    ensures 1 + q < |d| && |d[1 + q]| == t.bs && 8 * c + 8 <= t.bs
    ensures t.At(d, q * (t.bs / 8) + c) == U64At(d[1 + q], 8 * c)
  {
    RowColAt(q, c, Entries(t.bs));
    hide FromBytes;
  }

  /** The inode bitmap follows: bit `c` of its block `q` is set exactly if there is a file of that number. */
  lemma InodeMapOnDisk(g: Geo, d: Disk, n: nat, files: map<nat, File>, q: nat, c: nat, r: nat)
    requires BlockSizeOk(g.BlockSize()) && g == GeoFor(g.BlockSize(), |d|, n) && Consistent(g, d, files)
    requires c < 8 * g.BlockSize() && r == q * (8 * g.BlockSize()) + c < n
    ensures var b := g.inodeMap.start + q; b < |d| && |d[b]| == g.BlockSize() && (BitAt(d[b], c) <==> r in files)
  {
    hide *;
    ConsistentParts(g, d, files);
    MapParts(g, d, n, files, r);
    BitOnDisk(g.inodeMap, d, q, c);
  }

  lemma MapParts(g: Geo, d: Disk, n: nat, files: map<nat, File>, r: nat)
    requires BlockSizeOk(g.BlockSize()) && g == GeoFor(g.BlockSize(), |d|, n)
    requires g.Valid() && g.Fits(d) && TablesRep(g, d, files) && r < n
    ensures g.inodeMap.Fits(d) && g.inodeMap.bs == g.BlockSize() && g.inodeMap.bits == n
    ensures r in g.inodeMap.FreeSet(d) <==> r !in files
  {
    hide Region.Shaped, Region.FreeSet, CeilDiv, LastRow;
  }

  /** Then comes the block bitmap: bit `c` of its block `q` is clear exactly if that block is free. */
  lemma BlockMapOnDisk(g: Geo, d: Disk, n: nat, q: nat, c: nat, i: nat)
    requires BlockSizeOk(g.BlockSize()) && g == GeoFor(g.BlockSize(), |d|, n) && g.Valid() && g.Fits(d)
    requires c < 8 * g.BlockSize() && i == q * (8 * g.BlockSize()) + c < |d|
    ensures var b := g.blockMap.start + q; b < |d| && |d[b]| == g.BlockSize() && (BitAt(d[b], c) <==> i !in g.Free(d))
  {
    hide *;
    BlockMapParts(g, d, n);
    BitOnDisk(g.blockMap, d, q, c);
  }

  lemma BlockMapParts(g: Geo, d: Disk, n: nat)
    requires BlockSizeOk(g.BlockSize()) && g == GeoFor(g.BlockSize(), |d|, n) && g.Valid() && g.Fits(d)
    ensures g.blockMap.Fits(d) && g.blockMap.bs == g.BlockSize() && g.blockMap.bits == |d|
    ensures g.Free(d) == g.blockMap.FreeSet(d)
  {
    hide Region.Shaped, Region.FreeSet, CeilDiv, LastRow;
  }

  lemma BitOnDisk(m: Region, d: Disk, q: nat, c: nat)
    requires m.Fits(d) && c < 8 * m.bs && q * (8 * m.bs) + c < m.bits
    ensures m.start + q < |d| && |d[m.start + q]| == m.bs
    ensures BitAt(d[m.start + q], c) <==> q * (8 * m.bs) + c !in m.FreeSet(d)
  {
    RowColAt(q, c, 8 * m.bs);
    assert Inside(q * (8 * m.bs) + c, 8 * m.bs, m.cnt, m.last);
    hide BitAt;
  }

  // ---- Files ----

  /** The inode of a file: kind, three times the time stamp, size, block size and number of slots, in 44 bytes;
      then the slots for data blocks, 0 past the last one, and the slot of the indirect block, 0 if there is
      none; the indirect block goes on where those slots end. */
  lemma InodeOnDisk(g: Geo, d: Disk, files: map<nat, File>, r: nat, k: nat)
    requires Consistent(g, d, files) && r in files && g.BlockSize() >= 52
    ensures var bs := g.BlockSize();
      var f, direct := files[r], (bs - 44) / 8 - 1;
      && f.home < |d| && |d[f.home]| == bs && 44 + 8 * direct + 8 <= bs
      && var s := d[f.home];
      && U32At(s, 0) == (match f.kind case Unknown => 0 case Regular => 1 case Directory => 2)
      && U64At(s, 4) == U64At(s, 12) == U64At(s, 20) == f.stamp
      && U64At(s, 28) == f.size && U32At(s, 36) == bs && U32At(s, 40) == direct + 1
      && |f.data| == (f.size + bs - 1) / bs
      && (k < direct ==> U64At(s, 44 + 8 * k) == if k < |f.data| then f.data[k] else 0)
      && U64At(s, 44 + 8 * direct) == f.ind && (f.ind == 0 <==> |f.data| <= direct)
      && (direct <= k < |f.data| ==>
          && f.ind < |d| && |d[f.ind]| == bs && 8 * (k - direct) + 8 <= bs
          && U64At(d[f.ind], 8 * (k - direct)) == f.data[k])
  {
    hide *;
    var f := files[r];
    FileParts(g, d, files, r);
    RoundedUp(f.size, g.BlockSize());
    InodeBytes(g.BlockSize(), d[f.home], f, k);
    IndirectBytes(g, d, f, k);
  }

  lemma FileParts(g: Geo, d: Disk, files: map<nat, File>, r: nat)
    requires Consistent(g, d, files) && r in files
    ensures g.Valid() && g.Fits(d) && BlockSizeOk(g.BlockSize()) && WellFormed(g, files[r])
    ensures var f := files[r];
      && FileRep(g.BlockSize(), d, f) && f.home < |d| && InodeRep(g.BlockSize(), d[f.home], f)
      && |f.data| == CeilDiv(f.size, g.BlockSize())
  {
    hide CeilDiv, BlocksOk, InodeRep, TablesRep, Disjoint, Region.Shaped, InodeTable.Shaped;
  }

  lemma IndirectBytes(g: Geo, d: Disk, f: File, k: nat)
    requires g.Valid() && BlockSizeOk(g.BlockSize()) && WellFormed(g, f) && FileRep(g.BlockSize(), d, f)
    ensures var bs := g.BlockSize();
      var direct := (bs - 44) / 8 - 1;
      && (f.ind == 0 <==> |f.data| <= direct)
      && (direct <= k < |f.data| ==>
          && f.ind < |d| && |d[f.ind]| == bs && 8 * (k - direct) + 8 <= bs
          && U64At(d[f.ind], 8 * (k - direct)) == f.data[k])
  {
    var direct := Direct(g.BlockSize());
    if direct <= k < |f.data| { var e := Entry(d[f.ind], k - direct); }
    hide CeilDiv, InodeRep, NoDup, Owned, FromBytes, Geo.Valid;
  }

  lemma InodeBytes(bs: nat, s: Block, f: File, k: nat)
    requires InodeRep(bs, s, f)
    ensures BlockSizeOk(bs) && |s| == bs
    ensures var direct := (bs - 44) / 8 - 1;
      && U32At(s, 0) == (match f.kind case Unknown => 0 case Regular => 1 case Directory => 2)
      && U64At(s, 4) == U64At(s, 12) == U64At(s, 20) == f.stamp
      && U64At(s, 28) == f.size && U32At(s, 36) == bs && U32At(s, 40) == direct + 1
      && (k < direct ==> U64At(s, 44 + 8 * k) == if k < |f.data| then f.data[k] else 0)
      && U64At(s, 44 + 8 * direct) == f.ind
  {
    var h := s[..44];
    assert h[0..4] == s[0..4] && h[36..40] == s[36..40] && h[40..44] == s[40..44];
    assert h[4..12] == s[4..12] && h[12..20] == s[12..20] && h[20..28] == s[20..28] && h[28..36] == s[28..36];
    var last := Slot(s, Direct(bs));
    if k < Direct(bs) { var slot := Slot(s, k); }
    hide FromBytes;
  }

  lemma {:induction false} FlatByte(d: Disk, bs: nat, ids: seq<nat>, q: nat, c: nat)
    requires Sized(d, bs) && (forall i | 0 <= i < |ids| :: ids[i] < |d|) && q < |ids| && c < bs
    ensures q * bs + c < |Flatten(d, ids)| && Flatten(d, ids)[q * bs + c] == d[ids[q]][c]
  {
    var init := ids[..|ids| - 1];
    FlattenLength(d, bs, init);
    FlattenLength(d, bs, ids);
    MulMono(q + 1, |ids|, bs);
    if q < |init| {
      FlatByte(d, bs, init, q, c);
    }
  }

  /** Byte `c` of the data block `q` of a file is byte `q * bs + c` of what its callers see of it. */
  lemma ByteOnDisk(g: Geo, d: Disk, files: map<nat, File>, r: nat, q: nat, c: nat, i: nat)
    requires Consistent(g, d, files) && r in files && c < g.BlockSize()
    requires i == q * g.BlockSize() + c < files[r].size
    ensures var f := files[r];
      q < |f.data| && f.data[q] < |d| && |d[f.data[q]]| == g.BlockSize() && |AbsFile(d, f).content| == f.size
    ensures AbsFile(d, files[r]).content[i] == d[files[r].data[q]][c]
    ensures AbsFile(d, files[r]).kind == files[r].kind && AbsFile(d, files[r]).stamp == files[r].stamp
  {
    hide *;
    var f, bs := files[r], g.BlockSize();
    FileParts(g, d, files, r);
    ContentLength(g, d, f);
    DataOnDevice(g, d, f);
    RowsHold(f.size, bs, q);
    NotNegative(q, bs);
    ContentBytes(d, f);
    FlatByte(d, bs, f.data, q, c);
  }

  lemma NotNegative(q: nat, bs: nat)
    ensures q * bs >= 0
  {
  }

  lemma DataOnDevice(g: Geo, d: Disk, f: File)
    requires g.Valid() && g.Fits(d) && WellFormed(g, f)
    ensures Sized(d, g.BlockSize()) && g.BlockSize() > 0
    ensures forall i | 0 <= i < |f.data| :: f.data[i] < |d| && |d[f.data[i]]| == g.BlockSize()
  {
    forall i | 0 <= i < |f.data| ensures f.data[i] < |d| { assert f.data[i] in Owned(g.BlockSize(), f); }
    hide CeilDiv, NoDup, Region.Shaped, InodeTable.Shaped;
  }

  lemma ContentBytes(d: Disk, f: File)
    ensures AbsFile(d, f).kind == f.kind && AbsFile(d, f).stamp == f.stamp && AbsFile(d, f).content == Content(d, f)
    ensures forall i | 0 <= i < |Content(d, f)| ::
      i < |Flatten(d, f.data)| && Content(d, f)[i] == Flatten(d, f.data)[i]
  {
  }
}
