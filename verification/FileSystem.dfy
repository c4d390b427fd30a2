/** File operations: whole files written to, read from and removed from the volume. */
module FileSystem {
  import opened Bytes
  import opened Results
  import opened BlockDevice
  import opened Regions
  import opened Allocator
  import opened Inodes
  import opened InodeManagers
  import opened Layout
  import opened SuperBlocks
  import opened FileBlocks
  import A = AbstractFs

  /** The device holds a volume with these files. */
  ghost predicate Formatted(bs: nat, d: Disk, files: map<nat, File>) {
    && BlockSizeOk(bs) && 0 < |d| < 0x1_0000_0000 && |d[0]| == bs
    && var ninodes := U64At(d[0], OFF_SB_NINODES);
    && SuperRep(d[0], bs, |d|, ninodes)
    && 0 < ninodes == SupportedFor(ninodes, bs)
    && Consistent(GeoFor(bs, |d|, ninodes), d, files)
  }

  lemma OnlyLayout(bs: nat, d: Disk, f: map<nat, File>)
    requires Formatted(bs, d, f)
    ensures forall h :: Formatted(bs, d, h) <==> h == f
  {
    forall h | Formatted(bs, d, h) ensures h == f {
      LayoutUnique(GeoFor(bs, |d|, U64At(d[0], OFF_SB_NINODES)), d, f, h);
    }
  }

  lemma FormattedGeometry(bs: nat, d: Disk, f: map<nat, File>, ninodes: nat)
    requires Formatted(bs, d, f) && ninodes == U64At(d[0], OFF_SB_NINODES)
    ensures var g := GeoFor(bs, |d|, ninodes);
      && g.Valid() && g.Total() == |d| && Consistent(g, d, f)
      && ReservedFor(ninodes, bs) == g.blockMap.start
      && g.blockMap.start + CeilDiv(|d|, 8 * bs) <= |d| && 0 < CeilDiv(|d|, 8 * bs)
    ensures SuperRep(d[0], bs, |d|, ninodes) && 0 < ninodes == SupportedFor(ninodes, bs)
    ensures |d| < 0x1_0000_0000
  {
    CeilDivBounds(|d|, 8 * bs);
  }

  lemma GeometryFits(im: InodeManager, ba: BlockAllocator)
    requires im.bm == ba.bm && im.Shaped() && BlockSizeOk(im.bm.blockSize) && 0 < im.maxInodeSupported
    requires ba.bitmapBlockId == im.GetReservedBlocks() && ba.Map().Shaped(im.bm.blockCnt)
    requires im.nTableBlocks == TableBlocksFor(im.maxInodeSupported, im.bm.blockSize)
    requires im.nBitmapBlocks == BitmapBlocksFor(im.maxInodeSupported, im.bm.blockSize)
    requires ba.bitmapBlockCnt == CeilDiv(im.bm.blockCnt, 8 * im.bm.blockSize)
    requires ba.lastBlockNum == LastRow(im.bm.blockCnt, 8 * im.bm.blockSize)
    ensures var g := Geo(im.Table(), im.Map(), ba.Map());
      g == GeoFor(im.bm.blockSize, im.bm.blockCnt, im.maxInodeSupported) && g.Valid()
  {
  }

  class FileOperation {
    const bm: BlockManager
    const im: InodeManager
    const ba: BlockAllocator
    /** The files on the volume, by inode number counted from 0. */
    ghost var files: map<nat, File>

    /** Makes a new, empty volume on the device. */
    constructor (bm: BlockManager, maxInodeSupported: nat)
      requires bm.Valid() && BlockSizeOk(bm.blockSize) && bm.blockCnt < 0x1_0000_0000 && 0 < maxInodeSupported
      requires ReservedFor(maxInodeSupported, bm.blockSize) + CeilDiv(bm.blockCnt, 8 * bm.blockSize) <= bm.blockCnt
      modifies bm`disk, bm.data
      ensures Valid() && this.bm == bm
      ensures View() == A.Abs(bm.blockSize, SupportedFor(maxInodeSupported, bm.blockSize), map[],
        bm.blockCnt - ReservedFor(maxInodeSupported, bm.blockSize) - CeilDiv(bm.blockCnt, 8 * bm.blockSize))
    {
      CeilDivBounds(bm.blockCnt, 8 * bm.blockSize);
      hide Region.Shaped, InodeTable.Shaped, Region.FreeSet, BlockManager.Valid, Consistent, CeilDiv, SuperRep,
        LastRow, SupportedFor, Valid, View, AbsOf;
      var i := new InodeManager(bm, maxInodeSupported);
      ghost var d := bm.disk;
      var a := new BlockAllocator(bm, i.GetReservedBlocks(), true);
      ghost var m := bm.disk;
      ghost var g := Geo(i.Table(), i.Map(), a.Map());
      GeometryFits(i, a);
      var sb := new SuperBlock(bm, i.maxInodeSupported);
      sb.Flush(0, i.maxInodeSupported);
      NewVolume(g, d, m, bm.disk);
      this.bm, im, ba, files := bm, i, a, map[];
      new;
      Established();
    }

    /** The inode table and the allocator of the volume that is on the device, where its super block says. */
    static method OpenParts(bm: BlockManager, ghost f: map<nat, File>) returns (i: InodeManager, a: BlockAllocator)
      requires bm.Valid() && Formatted(bm.blockSize, bm.disk, f)
      modifies bm`disk, bm.data
      ensures bm.Valid() && bm.disk == old(bm.disk) && i.bm == a.bm == bm && i.Shaped()
      ensures OpenedAs(bm, i, a, f)
    {
      ghost var ninodes := U64At(bm.disk[0], OFF_SB_NINODES);
      FormattedGeometry(bm.blockSize, bm.disk, f, ninodes);
      hide Region.Shaped, InodeTable.Shaped, Region.FreeSet, BlockManager.Valid, Consistent, CeilDiv, LastRow,
        SupportedFor, Formatted, SuperRep, TableBlocksFor, BitmapBlocksFor, U64At, Geo.Valid;
      var sb := new SuperBlock.FromExisting(bm, 0);
      FrontKept(bm.disk[0], bm.blockSize, bm.blockCnt, ninodes);
      i := new InodeManager.FromBlockManager(bm, sb.GetNInodes());
      a := new BlockAllocator(bm, i.GetReservedBlocks(), false);
      GeometryFits(i, a);
    }

    static ghost predicate OpenedAs(bm: BlockManager, i: InodeManager, a: BlockAllocator, f: map<nat, File>)
      reads bm
    {
      var g := Geo(i.Table(), i.Map(), a.Map());
      && BlockSizeOk(bm.blockSize) && i.maxInodeSupported < 0x1_0000_0000_0000_0000
      && g == GeoFor(bm.blockSize, bm.blockCnt, i.maxInodeSupported) && g.Valid()
      && i.maxInodeSupported == SupportedFor(i.maxInodeSupported, bm.blockSize)
      && Consistent(g, bm.disk, f)
      && |bm.disk| > 0 && SuperRep(bm.disk[0], bm.blockSize, bm.blockCnt, i.maxInodeSupported)
    }

    /** Opens the volume that is on the device; there is only one way to read it. */
    constructor CreateFromRaw(bm: BlockManager)
      requires bm.Valid() && exists f :: Formatted(bm.blockSize, bm.disk, f)
      modifies bm`disk, bm.data
      ensures Valid() && this.bm == bm && bm.disk == old(bm.disk)
      ensures forall f :: Formatted(bm.blockSize, bm.disk, f) <==> f == files
    {
      hide BlockManager.Valid, Consistent, Formatted, Valid, View, SuperRep, Region.Shaped, InodeTable.Shaped,
        SupportedFor, Geo.Valid;
      ghost var f :| Formatted(bm.blockSize, bm.disk, f);
      var i, a := OpenParts(bm, f);
      this.bm, im, ba, files := bm, i, a, f;
      new;
      Established();
      OnlyLayout(bm.blockSize, bm.disk, f);
    }

    lemma Established()
      requires Wired() && AsRecorded() && bm.Valid() && Consistent(G(), bm.disk, files)
      requires SuperRep(bm.disk[0], bm.blockSize, bm.blockCnt, im.maxInodeSupported)
      ensures Valid() && View() == AbsOf(G(), bm.disk, files)
    {
    }

    ghost function G(): Geo {
      Geo(im.Table(), im.Map(), ba.Map())
    }

    /** The parts belong together. */
    ghost predicate Wired() {
      && im.bm == bm && ba.bm == bm && im.Shaped()
      && G().Valid() && G().BlockSize() == bm.blockSize && G().Total() == bm.blockCnt
    }

    /** The parts are laid out as the sizes in the super block say. */
    ghost predicate AsRecorded() {
      && BlockSizeOk(bm.blockSize) && im.maxInodeSupported < 0x1_0000_0000_0000_0000
      && G() == GeoFor(bm.blockSize, bm.blockCnt, im.maxInodeSupported)
      && im.maxInodeSupported == SupportedFor(im.maxInodeSupported, bm.blockSize)
    }

    ghost predicate Valid()
      reads this, bm, bm.data
    {
      && Wired() && AsRecorded() && bm.Valid()
      && Consistent(G(), bm.disk, files)
      && SuperRep(bm.disk[0], bm.blockSize, bm.blockCnt, im.maxInodeSupported)
    }

    /** The volume as its callers see it. */
    ghost function View(): A.Abs
      requires Valid()
      reads this, bm, bm.data
    {
      AbsOf(G(), bm.disk, files)
    }

    // ---- Counters ----

    method GetFreeBlocksNum() returns (n: nat)
      requires Valid()
      ensures n == View().free
    {
      hide Consistent, Region.Shaped, InodeTable.Shaped, BlockManager.Valid, Region.FreeSet;
      Basics();
      n := ba.FreeBlockCnt();
    }

    method GetFreeInodeNum() returns (n: nat)
      requires Valid()
      ensures n == A.FreeInodes(View())
    {
      hide Valid, View;
      HomesInRange();
      UnusedInodes();
      n := im.FreeInodeCnt();
    }

    lemma UnusedInodes()
      requires Valid()
      ensures im.Valid() && |im.FreeInodes()| == A.FreeInodes(View())
    {
      hide Region.Shaped, InodeTable.Shaped, Region.FreeSet, TablesRep;
      HomesInRange();
      UnusedCount(G(), bm.disk, files);
      assert View().files.Keys == files.Keys;
      SameSize(View().files, files);
    }

    static lemma SameSize<T, U>(m: map<nat, T>, n: map<nat, U>)
      requires m.Keys == n.Keys
      ensures |m| == |n|
    {
    }

    // ---- Reopening ----

    /** Whatever was done to the volume, it can be opened again, and holds the same files then. */
    lemma Reopens()
      requires Valid()
      ensures exists f :: Formatted(bm.blockSize, bm.disk, f)
      ensures forall f :: Formatted(bm.blockSize, bm.disk, f) <==> f == files
    {
      StillFormatted();
      OnlyLayout(bm.blockSize, bm.disk, files);
    }

    lemma StillFormatted()
      requires Valid()
      ensures Formatted(bm.blockSize, bm.disk, files)
    {
      hide Consistent;
    }

    /** Two handles on one device agree on where everything is, and show their callers the same. */
    lemma HandlesAgree(other: FileOperation)
      requires Valid() && other.Valid() && other.bm == bm
      ensures other.files == files && other.G() == G() && other.View() == View()
    {
      Reopens();
      other.StillFormatted();
      Basics();
      other.Basics();
      SameGeometry(other);
    }

    lemma SameGeometry(other: FileOperation)
      requires Valid() && other.Valid() && other.bm == bm
      ensures other.G() == G()
    {
      hide Consistent, Region.Shaped, InodeTable.Shaped, TableBlocksFor, BitmapBlocksFor, SupportedFor,
        CeilDiv, LastRow;
    }

    /** Another handle on the same volume. Neither keeps anything but where things are. */
    ghost predicate Sibling(other: FileOperation) {
      && bm == other.bm && Wired() && AsRecorded()
      && G() == other.G() && im.maxInodeSupported == other.im.maxInodeSupported
    }

    lemma SameDevice(other: FileOperation)
      requires Sibling(other)
      ensures bm == other.bm
    {
    }

    lemma SiblingsOf(mid: FileOperation, other: FileOperation)
      requires Sibling(mid) && (mid.Sibling(other) || other.Sibling(mid))
      ensures Sibling(other) && bm == other.bm && (mid.Sibling(other) ==> mid.bm == bm)
    {
    }

    lemma Siblings(other: FileOperation)
      requires Valid() && other.Valid() && other.bm == bm
      ensures Sibling(other) && Sibling(this)
    {
      SameGeometry(other);
      hide Consistent, Region.Shaped, InodeTable.Shaped, TableBlocksFor, BitmapBlocksFor, SupportedFor,
        CeilDiv, LastRow;
    }

    /** What one handle has done, the other serves. */
    lemma Serves(other: FileOperation)
      requires Sibling(other) && other.Valid() && files == other.files
      ensures Valid() && View() == other.View()
    {
      hide Consistent, Region.Shaped, InodeTable.Shaped, TableBlocksFor, BitmapBlocksFor, SupportedFor,
        CeilDiv, LastRow;
    }

    // ---- Inodes ----

    /** The table entry of inode number `r`. */
    lemma HomeOnDisk(r: nat)
      requires Valid() && r < im.maxInodeSupported
      ensures im.Home(r) == if r in files then files[r].home else INVALID_BLOCK_ID
      ensures r in files ==> G().DataStart() <= files[r].home < bm.blockCnt
    {
      assert im.Home(r) == G().table.At(bm.disk, r);
      if r in files {
        assert WellFormed(G(), files[r]);
        assert files[r].home in Owned(bm.blockSize, files[r]);
      }
    }

    /** All table entries are blocks of the device. */
    lemma HomesInRange()
      requires Valid()
      ensures im.bm == bm && im.Valid()
      ensures forall q | 0 <= q < im.maxInodeSupported :: im.Home(q) < bm.blockCnt
    {
      forall q: nat | q < im.maxInodeSupported ensures im.Home(q) < bm.blockCnt {
        HomeOnDisk(q);
      }
    }

    /** The inode number behind `id`. */
    ghost function Find(id: nat): Result<nat>
      reads this
    {
      if id >= im.maxInodeSupported - 1 then Err(InvalidArg)
      else if id == 0 then Err(Fault)
      else if id - 1 !in files then Err(InvalidArg)
      else Ok(id - 1)
    }

    /** Looking an id up on the volume gives what the view says. */
    lemma ResolveInView(id: nat)
      requires Valid()
      ensures A.Resolve(View(), id) == Find(id)
    {
      hide Consistent;
      assert View().files.Keys == files.Keys;
    }

    lemma InView(r: nat)
      requires Valid() && r in files
      ensures r in View().files && View().files[r] == AbsFile(bm.disk, files[r])
    {
      hide Consistent;
    }

    /** What reading the inode of `id` finds on the volume. */
    lemma ResolveOnDisk(id: nat)
      requires Valid()
      ensures im.Valid()
      ensures Find(id).Err? ==> im.ReadResult(id) == Find(id)
      ensures Find(id).Ok? ==>
        var home := files[id - 1].home;
        home < |bm.disk| && id - 1 < im.maxInodeSupported && im.ReadResult(id) == Ok(home) && im.Home(id - 1) == home
    {
      hide Valid, Wired, Consistent, InodeManager.Valid, BlockManager.Valid, InodeManager.Home, Region.Shaped,
        InodeTable.Shaped, Geo.Valid;
      HomesInRange();
      if 0 < id < im.maxInodeSupported - 1 {
        HomeOnDisk(id - 1);
        NoHomeAtZero();
      }
    }

    lemma NoHomeAtZero()
      requires Valid()
      ensures G().DataStart() > 0 && |bm.disk| == bm.blockCnt
    {
    }

    /** The blocks and the size of a file on the volume. */
    lemma FileOnDisk(r: nat)
      requires Valid() && r in files
      ensures Wired() && bm.Valid() && G().Fits(bm.disk)
      ensures WellFormed(G(), files[r]) && FileRep(bm.blockSize, bm.disk, files[r])
      ensures |Content(bm.disk, files[r])| == files[r].size
      ensures Apart(G(), bm.disk, files[r])
    {
      ContentLength(G(), bm.disk, files[r]);
    }

    /** Reads the inode of `id` into a new buffer. */
    method OpenInode(id: nat) returns (r: Result<nat>, ip: Inode)
      requires Valid()
      ensures fresh(ip.data)
      ensures match Find(id)
        case Err(e) => r == Err(e)
        case Ok(q) => r == Ok(files[q].home) && InodeRep(bm.blockSize, ip.data[..], files[q])
    {
      hide Valid, InodeRep, Wired, InodeManager.Valid, BlockManager.Valid, InodeManager.ReadResult, InodeManager.Home,
        WellFormed, Content, Apart, TableRep;
      HomesInRange();
      ResolveOnDisk(id);
      if Find(id).Ok? { FileOnDisk(id - 1); }
      var buffer := new byte[bm.blockSize](_ => 0);
      r := im.ReadInode(id, buffer);
      ip := new Inode(buffer);
    }

    method GetTypeAttr(id: nat) returns (r: Result<(Kind, Attr)>)
      requires Valid()
      ensures r == A.GetKindAttr(View(), id)
    {
      hide Valid, View;
      ResolveInView(id);
      var res, ip := OpenInode(id);
      if res.Err? {
        return Err(res.error);
      }
      InView(id - 1);
      FileOnDisk(id - 1);
      ip.Reads(bm.blockSize, files[id - 1]);
      r := Ok((ip.GetKind(), ip.GetAttr()));
    }

    // ---- Reading ----

    /** The buffers are neither the device nor each other. */
    ghost predicate Separate(ip: Inode, indirect: array<byte>) {
      ip.data != bm.data && ip.data != indirect && indirect != bm.data
    }

    /** Gets the block the last slot names into memory, unless a block is there already. */
    method ReadTable(ip: Inode, indirect: array<byte>, ghost f: File) returns (loaded: array<byte>)
      requires Wired() && bm.Valid() && Separate(ip, indirect)
      requires InodeRep(bm.blockSize, ip.data[..], f) && f.ind < bm.blockCnt && indirect.Length in {0, bm.blockSize}
      ensures Separate(ip, loaded) && (loaded == indirect || fresh(loaded))
      ensures loaded[..] == if indirect.Length == 0 then bm.disk[f.ind] else indirect[..]
      ensures loaded.Length == bm.blockSize
    {
      hide BlockManager.Valid, InodeRep;
      loaded := indirect;
      ip.Reads(bm.blockSize, f);
      if loaded.Length == 0 {
        loaded := new byte[bm.blockSize](_ => 0);
        ShownInd(bm.blockSize, ip.data[..], f);
        bm.ReadBlock(ip.Block(ip.GetNBlocks() - 1), loaded);
      }
    }

    /** Reads the indirect block unless it is loaded. */
    method LoadIndirect(ip: Inode, indirect: array<byte>, ghost f: File) returns (loaded: array<byte>)
      requires Wired() && bm.Valid() && Separate(ip, indirect)
      requires InodeRep(bm.blockSize, ip.data[..], f) && TableIn(bm.blockSize, bm.disk, indirect[..], f)
      requires |f.data| > Direct(bm.blockSize)
      ensures Separate(ip, loaded) && (loaded == indirect || fresh(loaded))
      ensures loaded.Length == bm.blockSize && TableRep(bm.blockSize, loaded[..], f)
    {
      DiskSize();
      hide BlockManager.Valid, InodeRep, TableRep;
      loaded := ReadTable(ip, indirect, f);
    }

    lemma DiskSize()
      requires Wired() && bm.Valid()
      ensures |bm.disk| == bm.blockCnt && BlockSizeOk(bm.blockSize)
    {
    }

    /** The id of data block `k`. */
    method BlockId(ip: Inode, indirect: array<byte>, k: nat, ghost f: File) returns (id: nat, loaded: array<byte>)
      requires Wired() && bm.Valid() && Separate(ip, indirect)
      requires InMemory(G(), bm.disk, ip.data[..], indirect[..], f) && k < |f.data|
      ensures Separate(ip, loaded) && InMemory(G(), bm.disk, ip.data[..], loaded[..], f)
      ensures loaded == indirect || fresh(loaded)
      ensures id == f.data[k] < bm.blockCnt
    {
      hide BlockManager.Valid, InodeRep, TableRep, BlocksOk;
      DataInRange(G(), f);
      ip.Reads(bm.blockSize, f);
      ShownSlot(bm.blockSize, ip.data[..], f, k);
      loaded := indirect;
      if ip.IsDirectBlock(k) {
        id := ip.Block(k);
      } else {
        loaded := LoadIndirect(ip, indirect, f);
        TableEntry(bm.blockSize, loaded[..], f, k);
        id := Entry(loaded[..], k - ip.GetDirectBlockNum());
      }
    }

    /** The whole contents of a file. */
    method ReadFile(id: nat) returns (r: Result<seq<byte>>)
      requires Valid()
      ensures r == A.ReadFile(View(), id)
    {
      hide Valid, View, BlocksOk, InodeRep;
      ResolveInView(id);
      var res, ip := OpenInode(id);
      if res.Err? {
        return Err(res.error);
      }
      InView(id - 1);
      FileOnDisk(id - 1);
      var indirect := new byte[0];
      var content := ReadContents(ip, indirect, files[id - 1]);
      r := Ok(content);
    }

    method ReadContents(ip: Inode, indirect0: array<byte>, ghost f: File) returns (content: seq<byte>)
      requires Wired() && bm.Valid() && Separate(ip, indirect0)
      requires InMemory(G(), bm.disk, ip.data[..], indirect0[..], f) && |f.data| == CeilDiv(f.size, bm.blockSize)
      ensures content == Content(bm.disk, f)
    {
      NextPart(f.size, bm.blockSize, 0);
      ip.Reads(bm.blockSize, f);
      DataInRange(G(), f);
      hide InMemory, Upto, CeilDiv, BlockManager.Valid;
      var indirect := indirect0;
      var fileSz := ip.GetSize();
      var readSz := 0;
      ghost var k := 0;
      content := [];
      while readSz < fileSz
        invariant Separate(ip, indirect) && (indirect == indirect0 || fresh(indirect))
        invariant InMemory(G(), bm.disk, ip.data[..], indirect[..], f)
        invariant k <= |f.data| && readSz == Upto(fileSz, bm.blockSize, k)
        invariant content == Take(Flatten(bm.disk, f.data[..k]), readSz)
        decreases fileSz - readSz
      {
        NextPart(fileSz, bm.blockSize, k);
        var sz := if ip.GetSize() - readSz > bm.blockSize then bm.blockSize else ip.GetSize() - readSz;
        assert sz == PartSize(fileSz, bm.blockSize, readSz);
        var buffer := new byte[bm.blockSize](_ => 0);
        var curBlockId;
        curBlockId, indirect := BlockId(ip, indirect, readSz / bm.blockSize, f);
        bm.ReadBlock(curBlockId, buffer);
        BlockRead(bm.disk, bm.blockSize, f.data, fileSz, k);
        content := content + buffer[..sz];
        readSz := readSz + sz;
        k := k + 1;
      }
      NextPart(fileSz, bm.blockSize, k);
      assert k == |f.data| && f.data[..k] == f.data;
    }

    // ---- Growing ----

    /** Allocates a data block for the end of the file in memory, and with the first one that no longer
        fits the inode an indirect block. */
    method AddBlock(ip: Inode, indirect: array<byte>, idx: nat, ghost f: File)
      returns (r: Result<()>, loaded: array<byte>, ghost h: File)
      requires Wired() && bm.Valid() && Separate(ip, indirect)
      requires InMemory(G(), bm.disk, ip.data[..], indirect[..], f) && Apart(G(), bm.disk, f)
      requires idx == |f.data| < Direct(bm.blockSize) + Entries(bm.blockSize)
      modifies ip.data, indirect, bm`disk, bm.data
      ensures bm.Valid() && ba.OnlyMapChanged(old(bm.disk))
      ensures Separate(ip, loaded) && (loaded == indirect || fresh(loaded))
      ensures r.Err? ==> r == Err(OutOfResource) && G().Free(bm.disk) == {}
      ensures r.Err? ==> |old(G().Free(bm.disk))| < A.CostOf(bm.blockSize, idx + 1) - A.CostOf(bm.blockSize, idx)
      ensures r.Ok? ==>
        && InMemory(G(), bm.disk, ip.data[..], loaded[..], h) && |h.data| == idx + 1
        && Grown(G(), f, h, old(G().Free(bm.disk)), G().Free(bm.disk))
    {
      hide BlocksOk, InodeRep, TableIn, BlockManager.Valid, Region.Shaped, InodeTable.Shaped, Grown, Owned,
        Region.FreeSet;
      loaded, h := indirect, f;
      ip.Reads(bm.blockSize, f);
      var block := ba.Allocate();
      StillInMemory(G(), old(bm.disk), ip.data[..], indirect[..], f, bm.disk);
      if block.Err? {
        return Err(block.error), loaded, h;
      }
      var id := block.value;
      if ip.IsDirectBlock(idx) {
        h := AddDirect(ip, indirect, idx, id, f);
        r := Ok(());
      } else {
        r, loaded, h := AddIndirect(ip, indirect, idx, id, f);
        if r.Err? {
          AtMostOne(old(G().Free(bm.disk)), id);
          return;
        }
      }
      OneMore(G(), f, id, h, old(G().Free(bm.disk)), G().Free(bm.disk));
    }

    /** Enters block `id` in the inode. */
    method AddDirect(ip: Inode, indirect: array<byte>, idx: nat, id: nat, ghost f: File) returns (ghost h: File)
      requires Wired() && bm.Valid() && Separate(ip, indirect)
      requires InMemory(G(), bm.disk, ip.data[..], indirect[..], f) && idx == |f.data| < Direct(bm.blockSize)
      requires G().DataStart() <= id < bm.blockCnt && id !in Owned(bm.blockSize, f)
      modifies ip.data
      ensures InMemory(G(), bm.disk, ip.data[..], indirect[..], h) && h == f.(data := f.data + [id])
      ensures Owned(bm.blockSize, h) == Owned(bm.blockSize, f) + {id}
    {
      hide BlocksOk, InodeRep, Owned, SlotOf, BlockManager.Valid;
      h := f.(data := f.data + [id]);
      GrownBy(G(), f, id, f.ind, h);
      SlotsAppended(bm.blockSize, f, id, h);
      ip.SetBlock(idx, id, bm.blockSize, f, h);
    }

    /** Enters block `id` in the indirect block. */
    method AddIndirect(ip: Inode, indirect: array<byte>, idx: nat, id: nat, ghost f: File)
      returns (r: Result<()>, loaded: array<byte>, ghost h: File)
      requires Wired() && bm.Valid() && Separate(ip, indirect)
      requires InMemory(G(), bm.disk, ip.data[..], indirect[..], f) && Apart(G(), bm.disk, f)
      requires idx == |f.data| && Direct(bm.blockSize) <= idx < Direct(bm.blockSize) + Entries(bm.blockSize)
      requires G().DataStart() <= id < bm.blockCnt && id !in Owned(bm.blockSize, f) && id !in G().Free(bm.disk)
      modifies ip.data, indirect, bm`disk, bm.data
      ensures bm.Valid() && ba.OnlyMapChanged(old(bm.disk))
      ensures Separate(ip, loaded) && (loaded == indirect || fresh(loaded))
      ensures r.Err? ==> r == Err(OutOfResource) && idx == Direct(bm.blockSize)
      ensures r.Err? ==> G().Free(bm.disk) == old(G().Free(bm.disk)) == {}
      ensures r.Ok? ==>
        InMemory(G(), bm.disk, ip.data[..], loaded[..], h) && h == f.(data := f.data + [id], ind := h.ind)
      ensures r.Ok? ==> IndGiven(bm.blockSize, f, h.ind, old(G().Free(bm.disk)), G().Free(bm.disk))
    {
      hide *;
      Parts();
      BlocksInMemory(G(), bm.disk, ip.data[..], indirect[..], f);
      r, loaded, h := EnsureIndirect(ip, indirect, f);
      Parts();
      if r.Err? { return; }
      SeparateParts(ip, loaded);
      EntryAdded(G(), old(bm.disk), bm.disk, ip.data[..], loaded[..], f, id, h.ind);
      EntryFits(bm.blockSize, idx);
      ip.Reads(bm.blockSize, h);
      h := h.(data := f.data + [id]);
      StoreU64(loaded, 8 * (idx - ip.GetDirectBlockNum()), id);
    }

    /** What the parts being of one volume means. */
    lemma Parts()
      requires Wired() && bm.Valid()
      ensures im.bm == ba.bm == bm && im.Valid() && ba.Valid() && ba.Free() == G().Free(bm.disk)
      ensures G().Valid() && G().Fits(bm.disk) && BlockSizeOk(bm.blockSize) && G().BlockSize() == bm.blockSize
      ensures G().Total() == bm.blockCnt == |bm.disk| < 0x1_0000_0000
    {
    }

    lemma SeparateParts(ip: Inode, indirect: array<byte>)
      ensures Separate(ip, indirect) <==> ip.data != bm.data && ip.data != indirect && indirect != bm.data
    {
    }

    static lemma EntryFits(bs: nat, idx: nat)
      requires BlockSizeOk(bs) && Direct(bs) <= idx < Direct(bs) + Entries(bs)
      ensures 8 * (idx - Direct(bs)) + 8 <= bs
    {
    }

    /** Gets the indirect block, a new one if there is none, and its contents. */
    method EnsureIndirect(ip: Inode, indirect: array<byte>, ghost f: File)
      returns (r: Result<()>, loaded: array<byte>, ghost h: File)
      requires Wired() && bm.Valid() && Separate(ip, indirect)
      requires InMemory(G(), bm.disk, ip.data[..], indirect[..], f) && Apart(G(), bm.disk, f)
      requires |f.data| >= Direct(bm.blockSize)
      modifies ip.data, bm`disk, bm.data
      ensures bm.Valid() && ba.OnlyMapChanged(old(bm.disk))
      ensures Separate(ip, loaded) && ((loaded == indirect && unchanged(indirect)) || fresh(loaded))
      ensures r.Err? ==> r == Err(OutOfResource) && |f.data| == Direct(bm.blockSize)
      ensures r.Err? ==> G().Free(bm.disk) == old(G().Free(bm.disk)) == {}
      ensures r.Ok? ==>
        && InodeRep(bm.blockSize, ip.data[..], h) && h == f.(ind := h.ind) && loaded.Length == bm.blockSize
        && (|f.data| > Direct(bm.blockSize) ==> TableRep(bm.blockSize, loaded[..], f))
      ensures r.Ok? ==> IndGiven(bm.blockSize, f, h.ind, old(G().Free(bm.disk)), G().Free(bm.disk))
    {
      hide InodeRep, TableRep, BlockManager.Valid, Region.Shaped, InodeTable.Shaped;
      DataInRange(G(), f);
      loaded, h := indirect, f;
      var res := ip.GetOrInsertIndirectBlock(ba, bm.blockSize, f);
      if res.Err? {
        return Err(res.error), loaded, h;
      }
      h := f.(ind := res.value);
      loaded := ReadTable(ip, loaded, h);
      r := Ok(());
    }

    /** Allocates the blocks `oldNum` to `newNum` of the file in memory. */
    method AllocateBlocks(ip: Inode, indirect: array<byte>, oldNum: nat, newNum: nat, ghost f: File)
      returns (r: Result<()>, loaded: array<byte>, ghost h: File)
      requires Wired() && bm.Valid() && Separate(ip, indirect)
      requires InMemory(G(), bm.disk, ip.data[..], indirect[..], f) && Apart(G(), bm.disk, f)
      requires oldNum == |f.data| <= newNum <= Direct(bm.blockSize) + Entries(bm.blockSize)
      modifies ip.data, indirect, bm`disk, bm.data
      ensures bm.Valid() && ba.OnlyMapChanged(old(bm.disk))
      ensures Separate(ip, loaded) && (loaded == indirect || fresh(loaded))
      ensures r.Ok? <==> A.CostOf(bm.blockSize, newNum) - A.CostOf(bm.blockSize, oldNum) <= |old(G().Free(bm.disk))|
      ensures r.Err? ==> r == Err(OutOfResource) && G().Free(bm.disk) == {}
      ensures r.Ok? ==>
        && InMemory(G(), bm.disk, ip.data[..], loaded[..], h) && |h.data| == newNum
        && Reblocked(G(), f, h, old(G().Free(bm.disk)), G().Free(bm.disk))
    {
      hide InMemory, Grown, Apart, Owned, BlockManager.Valid, Region.Shaped, InodeTable.Shaped, Region.FreeSet,
        Reblocked;
      loaded, h := indirect, f;
      ghost var free := G().Free(bm.disk);
      GrownNot(G(), f, free);
      for idx := oldNum to newNum
        invariant bm.Valid() && ba.OnlyMapChanged(old(bm.disk))
        invariant Separate(ip, loaded) && (loaded == indirect || fresh(loaded))
        invariant InMemory(G(), bm.disk, ip.data[..], loaded[..], h) && |h.data| == idx
        invariant Apart(G(), bm.disk, h) && Grown(G(), f, h, free, G().Free(bm.disk))
      {
        ghost var d := bm.disk;
        ghost var k;
        r, loaded, k := AddBlock(ip, loaded, idx, h);
        if r.Err? {
          Short(G(), f, h, free, G().Free(d), newNum);
          return;
        }
        GrownApart(G(), d, h, bm.disk, k);
        GrownMore(G(), f, h, k, free, G().Free(d), G().Free(bm.disk));
        h := k;
      }
      GrownApart(G(), old(bm.disk), f, bm.disk, h);
      GrownCost(G(), f, h, free, G().Free(bm.disk));
      r := Ok(());
    }

    /** Frees block `idx` of the file in memory. */
    method DropBlock(ip: Inode, indirect: array<byte>, idx: nat, ghost newNum: nat, ghost f: File)
      returns (r: Result<()>, loaded: array<byte>)
      requires Wired() && bm.Valid() && Separate(ip, indirect) && newNum <= idx < |f.data|
      requires HoledInMemory(G(), bm.disk, ip.data[..], indirect[..], f, newNum, idx) && BlocksOk(G(), f)
      requires f.data[idx] !in G().Free(bm.disk)
      modifies ip.data, indirect, bm`disk, bm.data
      ensures bm.Valid() && ba.OnlyMapChanged(old(bm.disk)) && r == Ok(())
      ensures Separate(ip, loaded) && (loaded == indirect || fresh(loaded))
      ensures HoledInMemory(G(), bm.disk, ip.data[..], loaded[..], f, newNum, idx + 1)
      ensures G().Free(bm.disk) == old(G().Free(bm.disk)) + {f.data[idx]}
    {
      hide BlockManager.Valid, Region.Shaped, InodeTable.Shaped, Region.FreeSet, BlocksOk, InodeRep, SlotOf, TableIn;
      ip.Reads(bm.blockSize, Holed(f, newNum, idx));
      if ip.IsDirectBlock(idx) {
        loaded := indirect;
        r := DropDirect(ip, indirect, idx, newNum, f);
      } else {
        r, loaded := DropIndirect(ip, indirect, idx, newNum, f);
      }
    }

    method DropDirect(ip: Inode, indirect: array<byte>, idx: nat, ghost newNum: nat, ghost f: File)
        returns (r: Result<()>)
      requires Wired() && bm.Valid() && Separate(ip, indirect) && newNum <= idx < |f.data| && idx < Direct(bm.blockSize)
      requires HoledInMemory(G(), bm.disk, ip.data[..], indirect[..], f, newNum, idx) && BlocksOk(G(), f)
      requires f.data[idx] !in G().Free(bm.disk)
      modifies ip.data, bm`disk, bm.data
      ensures bm.Valid() && ba.OnlyMapChanged(old(bm.disk)) && r == Ok(())
      ensures HoledInMemory(G(), bm.disk, ip.data[..], indirect[..], f, newNum, idx + 1)
      ensures G().Free(bm.disk) == old(G().Free(bm.disk)) + {f.data[idx]}
    {
      hide *;
      Parts();
      SeparateParts(ip, indirect);
      ghost var d := bm.disk;
      HoledParts(G(), d, ip.data[..], indirect[..], f, newNum, idx);
      HoledSlots(bm.blockSize, f, newNum, idx, Holed(f, newNum, idx), Holed(f, newNum, idx + 1));
      r := ReleaseSlot(ip, idx, Holed(f, newNum, idx), Holed(f, newNum, idx + 1));
      Parts();
      DirectDropped(G(), d, ip.data[..], indirect[..], f, newNum, idx, bm.disk);
    }

    /** Frees the block in a direct slot and clears the slot. */
    method ReleaseSlot(ip: Inode, idx: nat, ghost a: File, ghost b: File) returns (r: Result<()>)
      requires Wired() && bm.Valid() && ip.data != bm.data && InodeRep(bm.blockSize, ip.data[..], a)
      requires idx < |a.data| && idx < Direct(bm.blockSize)
      requires a.data[idx] < bm.blockCnt && a.data[idx] !in G().Free(bm.disk)
      requires b.kind == a.kind && b.size == a.size && b.stamp == a.stamp
      requires forall j | 0 <= j < NBlocks(bm.blockSize) ::
        SlotOf(bm.blockSize, b, j) == if j == idx then INVALID_BLOCK_ID else SlotOf(bm.blockSize, a, j)
      modifies ip.data, bm`disk, bm.data
      ensures bm.Valid() && SameOutside(old(bm.disk), bm.disk, G().blockMap.start, G().DataStart()) && r == Ok(())
      ensures ba.OnlyMapChanged(old(bm.disk))
      ensures G().Free(bm.disk) == old(G().Free(bm.disk)) + {a.data[idx]}
      ensures InodeRep(bm.blockSize, ip.data[..], b)
    {
      hide BlockManager.Valid, Region.Shaped, InodeTable.Shaped, Region.FreeSet, InodeRep, SlotOf;
      ip.Reads(bm.blockSize, a);
      ShownSlot(bm.blockSize, ip.data[..], a, idx);
      r := ba.Deallocate(ip.Block(idx));
      if r.Err? { return; }
      ip.SetBlock(idx, INVALID_BLOCK_ID, bm.blockSize, a, b);
    }

    method DropIndirect(ip: Inode, indirect: array<byte>, idx: nat, ghost newNum: nat, ghost f: File)
      returns (r: Result<()>, loaded: array<byte>)
      requires Wired() && bm.Valid() && Separate(ip, indirect)
      requires newNum <= idx < |f.data| && idx >= Direct(bm.blockSize)
      requires HoledInMemory(G(), bm.disk, ip.data[..], indirect[..], f, newNum, idx) && BlocksOk(G(), f)
      requires f.data[idx] !in G().Free(bm.disk)
      modifies indirect, bm`disk, bm.data
      ensures bm.Valid() && ba.OnlyMapChanged(old(bm.disk)) && r == Ok(())
      ensures Separate(ip, loaded) && (loaded == indirect || fresh(loaded))
      ensures HoledInMemory(G(), bm.disk, ip.data[..], loaded[..], f, newNum, idx + 1)
      ensures G().Free(bm.disk) == old(G().Free(bm.disk)) + {f.data[idx]}
    {
      hide *;
      Parts();
      HoledParts(G(), bm.disk, ip.data[..], indirect[..], f, newNum, idx);
      DataInRange(G(), f);
      ghost var a := Holed(f, newNum, idx);
      ip.Reads(bm.blockSize, a);
      loaded := LoadIndirect(ip, indirect, a);
      SeparateParts(ip, loaded);
      TableEntry(bm.blockSize, loaded[..], a, idx);
      var k := idx - ip.GetDirectBlockNum();
      r := ba.Deallocate(Entry(loaded[..], k));
      Parts();
      HoledStored(G(), bm.disk, ip.data[..], loaded[..], f, newNum, idx);
      StoreU64(loaded, 8 * k, INVALID_BLOCK_ID);
      if r.Err? { return; }
    }

    /** Frees the indirect block of the inode in memory. */
    method ReleaseIndirect(ip: Inode, ghost a: File) returns (r: Result<()>)
      requires Wired() && bm.Valid() && ip.data != bm.data && InodeRep(bm.blockSize, ip.data[..], a)
      requires a.ind < bm.blockCnt && a.ind !in G().Free(bm.disk)
      modifies ip.data, bm`disk, bm.data
      ensures bm.Valid() && ba.OnlyMapChanged(old(bm.disk)) && r == Ok(())
      ensures G().Free(bm.disk) == old(G().Free(bm.disk)) + {a.ind}
      ensures InodeRep(bm.blockSize, ip.data[..], a.(ind := INVALID_BLOCK_ID))
    {
      hide BlockManager.Valid, Region.Shaped, InodeTable.Shaped, Region.FreeSet, InodeRep;
      ip.Reads(bm.blockSize, a);
      ShownInd(bm.blockSize, ip.data[..], a);
      r := ba.Deallocate(ip.Block(ip.GetNBlocks() - 1));
      if r.Err? { return; }
      ip.InvalidIndirectBlockId(bm.blockSize, a);
    }

    /** Frees the blocks from `newNum` on of the file in memory, and the indirect block if the file no
        longer needs it. */
    method FreeBlocks(ip: Inode, indirect: array<byte>, oldNum: nat, newNum: nat, ghost f: File)
      returns (r: Result<()>, loaded: array<byte>, ghost h: File)
      requires Wired() && bm.Valid() && Separate(ip, indirect)
      requires InMemory(G(), bm.disk, ip.data[..], indirect[..], f) && Apart(G(), bm.disk, f)
      requires newNum <= oldNum == |f.data|
      modifies ip.data, indirect, bm`disk, bm.data
      ensures bm.Valid() && ba.OnlyMapChanged(old(bm.disk)) && r == Ok(())
      ensures Separate(ip, loaded) && (loaded == indirect || fresh(loaded))
      ensures InMemory(G(), bm.disk, ip.data[..], loaded[..], h) && |h.data| == newNum
      ensures Reblocked(G(), f, h, old(G().Free(bm.disk)), G().Free(bm.disk))
    {
      hide HoledInMemory, Owned, BlockManager.Valid, Region.Shaped, InodeTable.Shaped, Region.FreeSet,
        Reblocked, TableIn, InodeRep;
      loaded := indirect;
      ghost var free := G().Free(bm.disk);
      NothingHoled(G(), bm.disk, ip.data[..], indirect[..], f, newNum);
      for idx := newNum to oldNum
        invariant bm.Valid() && ba.OnlyMapChanged(old(bm.disk))
        invariant Separate(ip, loaded) && (loaded == indirect || fresh(loaded))
        invariant HoledInMemory(G(), bm.disk, ip.data[..], loaded[..], f, newNum, idx)
        invariant G().Free(bm.disk) == free + Elements(f.data[newNum..idx])
      {
        DropNext(G(), f, free, newNum, idx);
        r, loaded := DropBlock(ip, loaded, idx, newNum, f);
        if r.Err? { return; }
      }
      assert f.data[newNum..oldNum] == f.data[newNum..];
      r, loaded, h := FreeIndirect(ip, loaded, oldNum, newNum, f, free);
    }

    method FreeIndirect(ip: Inode, indirect: array<byte>, oldNum: nat, newNum: nat, ghost f: File, ghost free: set<nat>)
      returns (r: Result<()>, loaded: array<byte>, ghost h: File)
      requires Wired() && bm.Valid() && Separate(ip, indirect) && newNum <= oldNum == |f.data|
      requires HoledInMemory(G(), bm.disk, ip.data[..], indirect[..], f, newNum, oldNum) && BlocksOk(G(), f)
      requires Owned(bm.blockSize, f) !! free && G().Free(bm.disk) == free + Elements(f.data[newNum..])
      modifies ip.data, bm`disk, bm.data
      ensures bm.Valid() && ba.OnlyMapChanged(old(bm.disk)) && r == Ok(())
      ensures Separate(ip, loaded) && (loaded == indirect || fresh(loaded))
      ensures InMemory(G(), bm.disk, ip.data[..], loaded[..], h) && |h.data| == newNum
      ensures Reblocked(G(), f, h, free, G().Free(bm.disk))
    {
      hide Owned, BlockManager.Valid, Region.Shaped, InodeTable.Shaped, Region.FreeSet, Reblocked, InodeRep, BlocksOk,
        TableRep,
        HoledInMemory, InMemory, TableIn, Trimmed, Holed, Elements;
      TrimmedStart(G(), bm.disk, ip.data[..], indirect[..], f, newNum, free);
      h := Trimmed(bm.blockSize, f, newNum);
      ghost var a := Holed(f, newNum, |f.data|);
      loaded := indirect;
      r := Ok(());
      ip.Reads(bm.blockSize, a);
      if oldNum > ip.GetDirectBlockNum() && newNum <= ip.GetDirectBlockNum() {
        r := ReleaseIndirect(ip, a);
        if r.Err? { return; }
        loaded := new byte[0];
        assert a.(ind := h.ind) == a.(ind := INVALID_BLOCK_ID) by { TrimmedInd(bm.blockSize, f, newNum); }
      }
      TrimmedDone(G(), bm.disk, ip.data[..], loaded[..], f, newNum, free, G().Free(bm.disk));
    }

    // ---- Writing ----

    /** Writes the content, block by block, to the data blocks of the file in memory. */
    method WriteContents(ip: Inode, indirect: array<byte>, content: seq<byte>, ghost h: File)
        returns (loaded: array<byte>)
      requires Wired() && bm.Valid() && Separate(ip, indirect)
      requires InMemory(G(), bm.disk, ip.data[..], indirect[..], h) && |h.data| == CeilDiv(|content|, bm.blockSize)
      modifies bm`disk, bm.data
      ensures bm.Valid() && ChangedOnly(old(bm.disk), bm.disk, h.data)
      ensures Separate(ip, loaded) && (loaded == indirect || fresh(loaded))
      ensures InMemory(G(), bm.disk, ip.data[..], loaded[..], h)
      ensures Take(Flatten(bm.disk, h.data), |content|) == content
    {
      DataInRange(G(), h);
      assert NoDup(bm.blockSize, h);
      NextPart(|content|, bm.blockSize, 0);
      hide InMemory, Upto, CeilDiv, BlockManager.Valid, Written, Owned, Region.Shaped, InodeTable.Shaped;
      loaded := indirect;
      var blockIdx := 0;
      var writeSz := 0;
      NothingWritten(bm.disk, bm.blockSize, h.data, content);
      while writeSz < |content|
        invariant bm.Valid() && ChangedOnly(old(bm.disk), bm.disk, h.data)
        invariant Separate(ip, loaded) && (loaded == indirect || fresh(loaded))
        invariant InMemory(G(), bm.disk, ip.data[..], loaded[..], h)
        invariant blockIdx <= |h.data| && writeSz == Upto(|content|, bm.blockSize, blockIdx)
        invariant Written(bm.disk, bm.blockSize, h.data, blockIdx, content)
        decreases |content| - writeSz
      {
        NextPart(|content|, bm.blockSize, blockIdx);
        var sz := if |content| - writeSz > bm.blockSize then bm.blockSize else |content| - writeSz;
        assert sz == PartSize(|content|, bm.blockSize, writeSz);
        var blockId;
        blockId, loaded := BlockId(ip, loaded, blockIdx, h);
        WritePart(blockId, content, writeSz, sz, blockIdx, h);
        InMemoryKept(G(), old(bm.disk), ip.data[..], loaded[..], h, bm.disk);
        writeSz := writeSz + sz;
        blockIdx := blockIdx + 1;
      }
      NextPart(|content|, bm.blockSize, blockIdx);
      AllWritten(bm.disk, bm.blockSize, h.data, content);
    }

    /** Writes a part of the content to the front of a block, the rest of the block to zeros. */
    method WritePart(blockId: nat, content: seq<byte>, pos: nat, sz: nat, ghost k: nat, ghost h: File)
      requires Wired() && bm.Valid() && pos + sz <= |content| && sz <= bm.blockSize
      requires BlocksOk(G(), h) && k < |h.data| && blockId == h.data[k] < bm.blockCnt
      requires pos == Upto(|content|, bm.blockSize, k) < |content| && sz == PartSize(|content|, bm.blockSize, pos)
      requires Written(bm.disk, bm.blockSize, h.data, k, content)
      modifies bm`disk, bm.data
      ensures bm.Valid() && ChangedOnly(old(bm.disk), bm.disk, [blockId])
      ensures Written(bm.disk, bm.blockSize, h.data, k + 1, content)
    {
      DataInRange(G(), h);
      var buffer := new byte[bm.blockSize](_ => 0);
      forall i | 0 <= i < sz { buffer[i] := content[pos + i]; }
      assert buffer[..][..sz] == content[pos..pos + sz];
      bm.WriteBlock(blockId, buffer);
      BlockWritten(old(bm.disk), bm.blockSize, h.data, k, content, buffer[..], bm.disk);
    }

    /** Writes content, inode and indirect block of the file in memory. */
    method StoreFile(ip: Inode, indirect0: array<byte>, content: seq<byte>, now: u64, home: nat, ghost f: File)
      returns (r: Result<()>, ghost h: File)
      requires Wired() && bm.Valid() && Separate(ip, indirect0) && home == f.home
      requires InMemory(G(), bm.disk, ip.data[..], indirect0[..], f) && |f.data| == CeilDiv(|content|, bm.blockSize)
      requires |content| < 0x1_0000_0000_0000_0000
      modifies ip.data, bm`disk, bm.data
      ensures bm.Valid() && r == Ok(()) && h == Restamped(f, |content|, now)
      ensures FileRep(bm.blockSize, bm.disk, h) && Content(bm.disk, h) == content
      ensures |bm.disk| == |old(bm.disk)|
      ensures forall b | 0 <= b < |bm.disk| && b !in Owned(bm.blockSize, h) :: bm.disk[b] == old(bm.disk)[b]
    {
      ghost var sized := f.(size := |content|);
      h := Restamped(f, |content|, now);
      SameBlocks(G(), f, sized);
      SameBlocks(G(), f, h);
      hide BlockManager.Valid, Owned, Region.Shaped, InodeTable.Shaped, BlocksOk, InodeRep;
      ip.SetSize(|content|, bm.blockSize, f);
      SameTable(G(), bm.disk, indirect0[..], f, sized);
      var indirect := WriteContents(ip, indirect0, content, sized);
      ip.SetAllTime(now, bm.blockSize, sized);
      SameTable(G(), bm.disk, indirect[..], sized, h);
      ghost var d := bm.disk;
      r := WriteBack(ip, indirect, home, h);
    }

    method WriteBack(ip: Inode, indirect: array<byte>, home: nat, ghost h: File) returns (r: Result<()>)
      requires Wired() && bm.Valid() && Separate(ip, indirect) && home == h.home
      requires InMemory(G(), bm.disk, ip.data[..], indirect[..], h)
      modifies bm`disk, bm.data
      ensures bm.Valid() && r == Ok(()) && |bm.disk| == |old(bm.disk)|
      ensures FileRep(bm.blockSize, bm.disk, h) && Content(bm.disk, h) == old(Content(bm.disk, h))
      ensures forall b | 0 <= b < |bm.disk| && b !in Owned(bm.blockSize, h) :: bm.disk[b] == old(bm.disk)[b]
    {
      DataInRange(G(), h);
      assert home in Owned(bm.blockSize, h);
      assert indirect.Length != 0 ==> h.ind != INVALID_BLOCK_ID;
      hide BlockManager.Valid, Owned, Region.Shaped, InodeTable.Shaped, BlocksOk, InodeRep, TableRep;
      ip.Reads(bm.blockSize, h);
      ShownInd(bm.blockSize, ip.data[..], h);
      bm.WriteBlock(home, ip.data);
      r := Ok(());
      if indirect.Length != 0 {
        r := ip.WriteIndirectBlock(bm, indirect);
      }
      Committed(G(), old(bm.disk), ip.data[..], indirect[..], h, bm.disk);
    }

    /** Replaces the contents of a file: makes its block list as long as the new contents need, then
        writes the data blocks, the inode and the indirect block. */
    method WriteFile(id: nat, content: seq<byte>, now: u64) returns (r: Result<()>)
      requires Valid()
      modifies this`files, bm`disk, bm.data
      ensures Valid()
      ensures (View(), r) == A.WriteFile(old(View()), id, content, now)
      ensures r.Err? ==> files == old(files) && SameOutside(old(bm.disk), bm.disk, G().blockMap.start, G().DataStart())
    {
      hide Valid, View, BlocksOk, InodeRep, Consistent;
      ResolveInView(id);
      var res, ip := OpenInode(id);
      if res.Err? {
        return Err(res.error);
      }
      r := WriteOpened(res.value, ip, id, content, now);
    }

    /** Writing nothing at all, as the original does for content past the size limit. */
    lemma TooLarge(id: nat, content: seq<byte>, now: u64)
      requires Valid() && Find(id).Ok? && |content| > MaxFileSize(bm.blockSize)
      ensures (View(), Err(OutOfResource)) == A.WriteFile(View(), id, content, now)
    {
      ResolveInView(id);
    }

    /** The volume stays valid when its files are consistent and the super block is left alone. */
    twostate lemma StillValid(new h: map<nat, File>)
      requires old(Valid()) && bm.Valid() && files == h
      requires Consistent(G(), bm.disk, h) && bm.disk[0] == old(bm.disk)[0]
      ensures Valid() && View() == AbsOf(G(), bm.disk, h)
    {
    }

    lemma Basics()
      requires Valid()
      ensures Wired() && bm.Valid() && Consistent(G(), bm.disk, files) && View() == AbsOf(G(), bm.disk, files)
      ensures 0 < G().blockMap.start < G().DataStart()
    {
    }

    /** Brings the block list of the file in memory to length `newNum`. */
    method Reblock(ip: Inode, oldNum: nat, newNum: nat, ghost f: File)
      returns (r: Result<()>, indirect: array<byte>, ghost h: File)
      requires Wired() && bm.Valid() && ip.data != bm.data
      requires InMemory(G(), bm.disk, ip.data[..], [], f) && Apart(G(), bm.disk, f)
      requires oldNum == |f.data| && newNum <= Direct(bm.blockSize) + Entries(bm.blockSize)
      modifies ip.data, bm`disk, bm.data
      ensures bm.Valid() && ba.OnlyMapChanged(old(bm.disk))
      ensures Separate(ip, indirect) && fresh(indirect)
      ensures r.Ok? <==> A.CostOf(bm.blockSize, newNum) - A.CostOf(bm.blockSize, oldNum) <= |old(G().Free(bm.disk))|
      ensures r.Err? ==> r == Err(OutOfResource) && G().Free(bm.disk) == {}
      ensures r.Ok? ==>
        && InMemory(G(), bm.disk, ip.data[..], indirect[..], h) && |h.data| == newNum
        && Reblocked(G(), f, h, old(G().Free(bm.disk)), G().Free(bm.disk))
    {
      hide InMemory, Apart, BlockManager.Valid, Region.Shaped, InodeTable.Shaped, Region.FreeSet, Reblocked;
      indirect := new byte[0];
      assert indirect[..] == [];
      if newNum > oldNum {
        r, indirect, h := AllocateBlocks(ip, indirect, oldNum, newNum, f);
      } else {
        r, indirect, h := FreeBlocks(ip, indirect, oldNum, newNum, f);
      }
    }

    /** Completes a write to `f`, whose block list was `d`'s and is now that of `k`. */
    method StoreReblocked(ip: Inode, indirect: array<byte>, content: seq<byte>, now: u64, home: nat,
                          ghost d: Disk, ghost f: File, ghost k: File)
      returns (r: Result<()>, ghost h: File)
      requires Wired() && bm.Valid() && Separate(ip, indirect) && home == k.home
      requires InMemory(G(), bm.disk, ip.data[..], indirect[..], k) && |k.data| == CeilDiv(|content|, bm.blockSize)
      requires |content| < 0x1_0000_0000_0000_0000 && G().Fits(d) && ba.OnlyMapChanged(d)
      requires Reblocked(G(), f, k, G().Free(d), G().Free(bm.disk))
      modifies ip.data, bm`disk, bm.data
      ensures bm.Valid() && r == Ok(()) && h.stamp == now && h.data == k.data
      ensures FileWritten(G(), d, bm.disk, f, h, content)
    {
      hide BlockManager.Valid, Region.Shaped, InodeTable.Shaped, Region.FreeSet, InodeRep, TableIn, Content, FileRep;
      SameBlocks(G(), k, Restamped(k, |content|, now));
      ghost var e := bm.disk;
      r, h := StoreFile(ip, indirect, content, now, home, k);
      FreeUntouched(G(), e, bm.disk, h);
    }

    /** Replaces the contents of file `f`, whose inode is in memory. */
    method WriteBlocks(home: nat, ip: Inode, content: seq<byte>, now: u64, ghost f: File)
      returns (r: Result<()>, ghost h: File)
      requires Wired() && bm.Valid() && ip.data != bm.data && home == f.home
      requires WellFormed(G(), f) && FileRep(bm.blockSize, bm.disk, f) && Apart(G(), bm.disk, f)
      requires InodeRep(bm.blockSize, ip.data[..], f) && |content| <= MaxFileSize(bm.blockSize)
      modifies ip.data, bm`disk, bm.data
      ensures bm.Valid()
      ensures r.Ok? <==> A.Cost(bm.blockSize, |content|) - A.CostOf(bm.blockSize, |f.data|) <= |old(G().Free(bm.disk))|
      ensures r.Err? ==> r == Err(OutOfResource) && G().Free(bm.disk) == {} && ba.OnlyMapChanged(old(bm.disk))
      ensures r.Ok? ==> FileWritten(G(), old(bm.disk), bm.disk, f, h, content) && h.stamp == now
      ensures r.Ok? ==> r == Ok(()) && |h.data| == CeilDiv(|content|, bm.blockSize)
    {
      hide BlocksOk, InodeRep, FileWritten, FileRep, Apart, InMemory, Region.Shaped, InodeTable.Shaped,
        BlockManager.Valid, WellFormed;
      Unloaded(G(), bm.disk, ip.data[..], f);
      ip.Reads(bm.blockSize, f);
      BlockLimit(|content|, bm.blockSize);
      var newNum := CeilDiv(|content|, bm.blockSize);
      var indirect; ghost var k;
      r, indirect, k := Reblock(ip, CeilDiv(ip.GetSize(), bm.blockSize), newNum, f);
      if r.Err? { return r, f; }
      r, h := StoreReblocked(ip, indirect, content, now, home, old(bm.disk), f, k);
    }

    method WriteOpened(home: nat, ip: Inode, id: nat, content: seq<byte>, now: u64) returns (r: Result<()>)
      requires Valid() && Find(id).Ok? && home == files[id - 1].home && ip.data != bm.data
      requires InodeRep(bm.blockSize, ip.data[..], files[id - 1])
      modifies this`files, ip.data, bm`disk, bm.data
      ensures Valid()
      ensures (View(), r) == A.WriteFile(old(View()), id, content, now)
      ensures r.Err? ==> files == old(files) && SameOutside(old(bm.disk), bm.disk, G().blockMap.start, G().DataStart())
    {
      hide Valid, View, BlocksOk, InodeRep, Consistent, AbsOf, FileWritten, FileRep, Owned, Apart, Reblocked,
        InMemory, Region.Shaped, InodeTable.Shaped, BlockManager.Valid, WellFormed, A.WriteFile, CeilDiv;
      Basics();
      ghost var f := files[id - 1];
      FileOnDisk(id - 1);
      ip.Reads(bm.blockSize, f);
      if |content| > ip.MaxFileSzSupported() {
        TooLarge(id, content, now);
        return Err(OutOfResource);
      }
      ghost var h;
      r, h := WriteBlocks(home, ip, content, now, f);
      if r.Err? {
        FailedWriteRefines(G(), old(bm.disk), files, bm.disk, id - 1, content, now);
        StillValid(files);
        return;
      }
      WriteRefines(G(), old(bm.disk), files, bm.disk, id - 1, h, content);
      FrontUntouched(G(), old(bm.disk), bm.disk, f, h, content);
      files := files[id - 1 := h];
      StillValid(files);
    }

    // ---- Windows and sizes ----

    /** Writes `data` at `offset`, filling a gap before it with zeros. */
    method WriteFileAt(id: nat, data: seq<byte>, offset: nat, now: u64) returns (r: Result<nat>)
      requires Valid()
      modifies this`files, bm`disk, bm.data
      ensures Valid()
      ensures (View(), r) == A.WriteAt(old(View()), id, data, offset, now)
      ensures r.Err? ==> files == old(files) && SameOutside(old(bm.disk), bm.disk, G().blockMap.start, G().DataStart())
    {
      hide Valid, View, A.WriteFile, A.ReadFile;
      BlockSizes();
      var readRes := ReadFile(id);
      if readRes.Err? {
        return Err(readRes.error);
      }
      var content := readRes.value;
      if offset + |data| >= 0x1_0000_0000_0000_0000 {
        return Err(Fault);
      }
      if offset + |data| > |content| {
        content := A.Resized(content, offset + |data|);
      }
      content := Splice(content, offset, data);
      var writeRes := WriteFile(id, content, now);
      if writeRes.Err? {
        return Err(writeRes.error);
      }
      r := Ok(|data|);
    }

    lemma BlockSizes()
      requires Valid()
      ensures BlockSizeOk(bm.blockSize) && View().bs == bm.blockSize
    {
    }

    /** Reads `sz` bytes at `offset`, all of which have to be in the file. */
    method ReadFileAt(id: nat, sz: nat, offset: nat) returns (r: Result<seq<byte>>)
      requires Valid()
      ensures r == A.ReadAt(View(), id, sz, offset)
    {
      hide Valid, View, A.ReadFile;
      var res := ReadFile(id);
      if res.Err? {
        return res;
      }
      if offset + sz > |res.value| {
        return Err(Fault);
      }
      r := Ok(res.value[offset..offset + sz]);
    }

    method GetAttr(id: nat) returns (r: Result<Attr>)
      requires Valid()
      ensures r == A.GetAttr(View(), id)
    {
      hide Valid, View;
      var res := GetTypeAttr(id);
      r := if res.Ok? then Ok(res.value.1) else Err(res.error);
    }

    method GetKind(id: nat) returns (r: Result<Kind>)
      requires Valid()
      ensures r == A.GetKind(View(), id)
    {
      hide Valid, View;
      var res := GetTypeAttr(id);
      r := if res.Ok? then Ok(res.value.0) else Err(res.error);
    }

    /** Cuts a file, or fills it up with zeros, to `sz` bytes. */
    method Resize(id: nat, sz: nat, now: u64) returns (r: Result<Attr>)
      requires Valid()
      modifies this`files, bm`disk, bm.data
      ensures Valid()
      ensures (View(), r) == A.ResizeFile(old(View()), id, sz, now)
      ensures r.Err? ==> files == old(files) && SameOutside(old(bm.disk), bm.disk, G().blockMap.start, G().DataStart())
    {
      hide Valid, View, A.WriteFile, A.ReadFile, A.GetAttr;
      BlockSizes();
      var attrRes := GetAttr(id);
      var fileContent := ReadFile(id);
      if attrRes.Err? {
        return Err(attrRes.error);
      }
      if fileContent.Err? {
        return Err(fileContent.error);
      }
      if |fileContent.value| != sz {
        var writeRes := WriteFile(id, A.Resized(fileContent.value, sz), now);
        if writeRes.Err? {
          return Err(writeRes.error);
        }
        return Ok(attrRes.value.(size := sz));
      }
      SizeInAttr(View(), id);
      r := Ok(attrRes.value.(size := sz));
    }

    static lemma SizeInAttr(a: A.Abs, id: nat)
      ensures A.GetAttr(a, id).Ok? && A.ReadFile(a, id).Ok? ==>
        A.GetAttr(a, id).value.size == |A.ReadFile(a, id).value|
    {
    }

    // ---- New inodes ----

    /** Allocates a block and an inode in it. */
    method AllocInode(kind: Kind, now: u64) returns (r: Result<nat>)
      requires Valid()
      modifies this`files, bm`disk, bm.data
      ensures Valid()
      ensures (View(), r) == A.AllocInode(old(View()), kind, now)
    {
      hide Valid, View, Consistent, AbsOf, Region.Shaped, InodeTable.Shaped, BlockManager.Valid,
        Region.FreeSet, A.AllocInode, Owned, InodeRep, InodeTable.At, AbsFiles;
      Basics();
      var block := ba.Allocate();
      if block.Err? {
        NoBlock(G(), old(bm.disk), files, kind, now);
        StillValid(files);
        return Err(Thrown);
      }
      BlockTaken(G(), old(bm.disk), files, block.value, bm.disk);
      ghost var d := bm.disk;
      r := im.AllocateInode(kind, block.value, now);
      if r.Err? {
        NoInode(G(), old(bm.disk), files, d, kind, now);
        StillValid(files);
        return;
      }
      ghost var f := File(block.value, kind, 0, now, [], INVALID_BLOCK_ID);
      InodeAdded(G(), old(bm.disk), files, d, bm.disk, r.value - 1, f);
      files := files[r.value - 1 := f];
      StillValid(files);
    }

    // ---- Removing ----

    /** The block ids in the direct slots, up to the first empty slot. */
    method CollectDirect(ip: Inode, ghost f: File) returns (freeSet: seq<nat>)
      requires Wired() && InodeRep(bm.blockSize, ip.data[..], f) && BlocksOk(G(), f)
      ensures |f.data| <= Direct(bm.blockSize) ==> freeSet == f.data
    {
      DataInRange(G(), f);
      ip.Reads(bm.blockSize, f);
      freeSet := [];
      for i := 0 to ip.GetDirectBlockNum()
        invariant i <= |f.data| && freeSet == f.data[..i]
      {
        assert ip.Block(i) == SlotOf(bm.blockSize, f, i);
        if ip.Block(i) == INVALID_BLOCK_ID {
          break;
        }
        freeSet := freeSet + [ip.Block(i)];
      }
    }

    /** Gives all listed blocks back. */
    method DeallocateAll(freeSet: seq<nat>) returns (r: Result<()>)
      requires Wired() && bm.Valid()
      requires forall i | 0 <= i < |freeSet| :: freeSet[i] < bm.blockCnt && freeSet[i] !in G().Free(bm.disk)
      requires forall i, j | 0 <= i < j < |freeSet| :: freeSet[i] != freeSet[j]
      modifies bm`disk, bm.data
      ensures bm.Valid() && ba.OnlyMapChanged(old(bm.disk)) && r == Ok(())
      ensures G().Free(bm.disk) == old(G().Free(bm.disk)) + Elements(freeSet)
    {
      hide BlockManager.Valid, Region.Shaped, InodeTable.Shaped, Region.FreeSet;
      for i := 0 to |freeSet|
        invariant bm.Valid() && ba.OnlyMapChanged(old(bm.disk))
        invariant G().Free(bm.disk) == old(G().Free(bm.disk)) + Elements(freeSet[..i])
      {
        NextElement(freeSet, i);
        r := ba.Deallocate(freeSet[i]);
        if r.Err? { return; }
      }
      assert freeSet[..|freeSet|] == freeSet;
      r := Ok(());
    }

    /** Frees inode `id`, then the listed blocks; `m` is the device in between. */
    method Release(id: nat, freeSet: seq<nat>) returns (r: Result<()>, ghost m: Disk)
      requires Wired() && bm.Valid() && 0 < id < im.maxInodeSupported - 1
      requires forall i | 0 <= i < |freeSet| :: freeSet[i] < bm.blockCnt && freeSet[i] !in G().Free(bm.disk)
      requires forall i, j | 0 <= i < j < |freeSet| :: freeSet[i] != freeSet[j]
      modifies bm`disk, bm.data
      ensures bm.Valid() && r == Ok(()) && G().Fits(m)
      ensures G().inodeMap.FreeSet(m) == G().inodeMap.FreeSet(old(bm.disk)) + {id - 1}
      ensures forall q | 0 <= q < G().MaxInodes() ::
        G().table.At(m, q) == if q == id - 1 then INVALID_BLOCK_ID else G().table.At(old(bm.disk), q)
      ensures SameOutside(old(bm.disk), m, 1, G().blockMap.start) && ba.OnlyMapChanged(m)
      ensures G().Free(bm.disk) == G().Free(old(bm.disk)) + Elements(freeSet)
    {
      hide BlockManager.Valid, Region.Shaped, InodeTable.Shaped, Region.FreeSet, Elements;
      r := im.FreeInode(id);
      m := bm.disk;
      if r.Err? { return; }
      FreeSetKept(G(), old(bm.disk), m);
      r := DeallocateAll(freeSet);
    }

    /** Removes a file. The original reads an indirect block into a buffer without room for it: that ends
        here in a fault, before anything on the device changes. */
    method RemoveFile(id: nat) returns (r: Result<()>)
      requires Valid()
      modifies this`files, bm`disk, bm.data
      ensures Valid()
      ensures (View(), r) == A.RemoveFile(old(View()), id)
      ensures r.Err? ==> files == old(files) && bm.disk == old(bm.disk)
    {
      hide Valid, View, A.RemoveFile;
      ResolveInView(id);
      var res, ip := OpenInode(id);
      if res.Err? {
        UnresolvedRemove(id);
        return Err(res.error);
      }
      r := RemoveOpened(res.value, ip, id);
    }

    method RemoveOpened(home: nat, ip: Inode, id: nat) returns (r: Result<()>)
      requires Valid() && Find(id).Ok? && home == files[id - 1].home
      requires InodeRep(bm.blockSize, ip.data[..], files[id - 1])
      modifies this`files, bm`disk, bm.data
      ensures Valid()
      ensures (View(), r) == A.RemoveFile(old(View()), id)
      ensures r.Err? ==> files == old(files) && bm.disk == old(bm.disk)
    {
      hide Valid, View, Consistent, AbsOf, Region.Shaped, InodeTable.Shaped, BlockManager.Valid, Region.FreeSet,
        A.RemoveFile,
        BlocksOk, InodeRep, FileRep, WellFormed, Apart, Owned, Elements;
      Basics();
      ghost var f := files[id - 1];
      FileOnDisk(id - 1);
      RemovalFacts(G(), bm.disk, f);
      var freeSet := CollectDirect(ip, f);
      ip.Reads(bm.blockSize, f);
      ShownInd(bm.blockSize, ip.data[..], f);
      if ip.Block(ip.GetDirectBlockNum()) != INVALID_BLOCK_ID {
        IndirectRemove(id);
        return Err(Fault);
      }
      ghost var m;
      r, m := Release(id, freeSet + [home]);
      FileRemoved(G(), old(bm.disk), files, m, bm.disk, id - 1);
      files := files - {id - 1};
      StillValid(files);
    }

    lemma UnresolvedRemove(id: nat)
      requires Valid() && Find(id).Err?
      ensures (View(), Err(Find(id).error)) == A.RemoveFile(View(), id)
    {
      ResolveInView(id);
    }

    lemma IndirectRemove(id: nat)
      requires Valid() && Find(id).Ok? && |files[id - 1].data| > Direct(bm.blockSize)
      ensures (View(), Err(Fault)) == A.RemoveFile(View(), id)
    {
      hide Valid, View, Consistent, Region.Shaped, InodeTable.Shaped, FileRep, Apart, BlocksOk, A.RemoveFile;
      ResolveInView(id);
      InView(id - 1);
      FileOnDisk(id - 1);
      BlockSizes();
      AbsRemoveFaults(View(), id - 1);
    }
  }
}
