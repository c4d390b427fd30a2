/** How files lie on the device, and what keeps them apart. */
module Layout {
  import opened Bytes
  import opened BlockDevice
  import opened Regions
  import opened Inodes
  import opened InodeManagers
  import opened AbstractFs

  /** Where the table and the two bitmaps are. */
  datatype Geo = Geo(table: InodeTable, inodeMap: Region, blockMap: Region) {

    function BlockSize(): nat { table.bs }

    function MaxInodes(): nat { table.n }

    /** The first block that is not metadata. */
    function DataStart(): nat { blockMap.start + blockMap.cnt }

    ghost predicate Valid() {
      && BlockSizeOk(table.bs) && table.bs == inodeMap.bs == blockMap.bs
      && 0 < table.n == inodeMap.bits
      && inodeMap.start == 1 + table.cnt && blockMap.start == inodeMap.start + inodeMap.cnt
      && DataStart() <= Total() < 0x1_0000_0000
      && table.Shaped(Total()) && inodeMap.Shaped(Total()) && blockMap.Shaped(Total())
    }

    /** The number of blocks. */
    function Total(): nat { blockMap.bits }

    ghost predicate Fits(d: Disk) {
      |d| == Total() && Sized(d, BlockSize())
    }

    ghost function Free(d: Disk): set<nat>
      requires Valid() && Fits(d)
    {
      blockMap.FreeSet(d)
    }
  }

  /** The geometry of a volume of `total` blocks of `bs` bytes made for `ninodes` inodes. */
  ghost function GeoFor(bs: nat, total: nat, ninodes: nat): Geo
    requires BlockSizeOk(bs)
  {
    var nTable, nBitmap := TableBlocksFor(ninodes, bs), BitmapBlocksFor(ninodes, bs);
    Geo(InodeTable(bs, nTable, ninodes),
        Region(bs, 1 + nTable, nBitmap, 8 * bs, ninodes),
        Region(bs, 1 + nTable + nBitmap, CeilDiv(total, 8 * bs), LastRow(total, 8 * bs), total))
  }

  // ---- One file ----

  ghost function Elements(s: seq<nat>): set<nat> {
    set b | b in s
  }

  /** All blocks of a file. */
  ghost function Owned(bs: nat, f: File): set<nat>
    requires BlockSizeOk(bs)
  {
    {f.home} + Elements(f.data) + if |f.data| > Direct(bs) then {f.ind} else {}
  }

  /** No block serves twice. */
  ghost predicate NoDup(bs: nat, f: File)
    requires BlockSizeOk(bs)
  {
    && (forall i, j | 0 <= i < j < |f.data| :: f.data[i] != f.data[j])
    && f.home !in f.data
    && (|f.data| > Direct(bs) ==> f.ind !in f.data && f.ind != f.home)
  }

  /** The blocks of `f` are data blocks of the device, none of them twice, and there is an indirect block
      exactly when the direct slots do not suffice. */
  ghost predicate BlocksOk(g: Geo, f: File)
    requires g.Valid()
  {
    && |f.data| <= Direct(g.BlockSize()) + Entries(g.BlockSize())
    && (f.ind == INVALID_BLOCK_ID <==> |f.data| <= Direct(g.BlockSize()))
    && NoDup(g.BlockSize(), f)
    && forall b | b in Owned(g.BlockSize(), f) :: g.DataStart() <= b < g.Total()
  }

  /** ... and they are as many as the size takes. */
  ghost predicate WellFormed(g: Geo, f: File)
    requires g.Valid()
  {
    && BlocksOk(g, f)
    && |f.data| == CeilDiv(f.size, g.BlockSize())
    && f.size < 0x1_0000_0000_0000_0000
  }

  /** The inode block and the indirect block on the device are those of `f`. */
  ghost predicate FileRep(bs: nat, d: Disk, f: File)
    requires BlockSizeOk(bs)
  {
    && f.home < |d| && InodeRep(bs, d[f.home], f)
    && (|f.data| > Direct(bs) ==> f.ind < |d| && TableRep(bs, d[f.ind], f))
  }

  /** The bytes of the listed blocks, one block after the other. */
  ghost function Flatten(d: Disk, ids: seq<nat>): seq<byte> {
    if ids == [] then []
    else Flatten(d, ids[..|ids| - 1]) + BlockAt(d, ids[|ids| - 1])
  }

  ghost function BlockAt(d: Disk, b: nat): Block {
    if b < |d| then d[b] else []
  }

  function Take<T>(s: seq<T>, n: nat): seq<T> {
    if n <= |s| then s[..n] else s
  }

  ghost function Content(d: Disk, f: File): seq<byte> {
    Take(Flatten(d, f.data), f.size)
  }

  lemma {:induction false} FlattenFrame(d: Disk, e: Disk, ids: seq<nat>)
    requires |d| == |e| && forall b | b in ids && b < |d| :: d[b] == e[b]
    ensures Flatten(d, ids) == Flatten(e, ids)
  {
    if ids != [] { FlattenFrame(d, e, ids[..|ids| - 1]); }
  }

  lemma {:induction false} FlattenLength(d: Disk, bs: nat, ids: seq<nat>)
    requires Sized(d, bs) && forall i | 0 <= i < |ids| :: ids[i] < |d|
    ensures |Flatten(d, ids)| == |ids| * bs
  {
    if ids != [] {
      FlattenLength(d, bs, ids[..|ids| - 1]);
      assert |ids| * bs == (|ids| - 1) * bs + bs;
    }
  }

  lemma ContentLength(g: Geo, d: Disk, f: File)
    requires g.Valid() && g.Fits(d) && WellFormed(g, f)
    ensures |Content(d, f)| == f.size
  {
    forall i | 0 <= i < |f.data| ensures f.data[i] < |d| { assert f.data[i] in Owned(g.BlockSize(), f); }
    FlattenLength(d, g.BlockSize(), f.data);
    CeilDivBounds(f.size, g.BlockSize());
  }

  lemma {:induction false} DistinctCount(s: seq<nat>)
    requires forall i, j | 0 <= i < j < |s| :: s[i] != s[j]
    ensures |Elements(s)| == |s|
  {
    if s != [] {
      var t, last := s[..|s| - 1], s[|s| - 1];
      assert s == t + [last];
      DistinctCount(t);
      forall b ensures b in s <==> b in t || b == last {}
      assert Elements(s) == Elements(t) + {last};
    }
  }

  lemma OwnedCount(bs: nat, f: File)
    requires BlockSizeOk(bs) && NoDup(bs, f)
    ensures |Owned(bs, f)| == 1 + CostOf(bs, |f.data|)
  {
    DistinctCount(f.data);
    var t := {f.home} + Elements(f.data);
    assert |t| == 1 + |f.data|;
    if |f.data| > Direct(bs) {
      assert Owned(bs, f) == t + {f.ind};
    } else {
      assert Owned(bs, f) == t;
    }
  }

  /** Changes outside the blocks of a file leave the file as it is. */
  lemma FileKept(bs: nat, d: Disk, e: Disk, f: File)
    requires BlockSizeOk(bs) && FileRep(bs, d, f) && |d| == |e|
    requires forall b | b in Owned(bs, f) && b < |d| :: d[b] == e[b]
    ensures FileRep(bs, e, f) && Content(e, f) == Content(d, f)
  {
    forall b | b in f.data ensures b in Owned(bs, f) {}
    FlattenFrame(d, e, f.data);
    assert f.home in Owned(bs, f);
    if |f.data| > Direct(bs) { assert f.ind in Owned(bs, f); }
  }

  // ---- All files ----

  /** Inode bitmap and table agree: the numbers in use are those of the files, and their entries name the
      blocks of their inodes. */
  ghost predicate TablesRep(g: Geo, d: Disk, files: map<nat, File>)
    requires g.Valid() && g.Fits(d)
  {
    && (forall r | r in files :: r < g.MaxInodes())
    && (forall r: nat :: r in g.inodeMap.FreeSet(d) <==> r < g.MaxInodes() && r !in files)
    && forall r: nat | r < g.MaxInodes() :: g.table.At(d, r) == if r in files then files[r].home else INVALID_BLOCK_ID
  }

  /** No block belongs to two files, no block of a file is free, and only data blocks are free. */
  ghost predicate Disjoint(g: Geo, d: Disk, files: map<nat, File>)
    requires g.Valid() && g.Fits(d)
  {
    && (forall r, q | r in files && q in files && r != q ::
          Owned(g.BlockSize(), files[r]) !! Owned(g.BlockSize(), files[q]))
    && (forall r | r in files :: Owned(g.BlockSize(), files[r]) !! g.Free(d))
    && forall b | b in g.Free(d) :: g.DataStart() <= b
  }

  /** The invariant of a volume. */
  ghost predicate Consistent(g: Geo, d: Disk, files: map<nat, File>) {
    && g.Valid() && g.Fits(d)
    && TablesRep(g, d, files)
    && Disjoint(g, d, files)
    && forall r | r in files :: WellFormed(g, files[r]) && FileRep(g.BlockSize(), d, files[r])
  }

  lemma ConsistentParts(g: Geo, d: Disk, files: map<nat, File>)
    requires Consistent(g, d, files)
    ensures g.Valid() && g.Fits(d) && TablesRep(g, d, files) && Disjoint(g, d, files)
  {
  }

  /** What the callers of the file system see of a volume. */
  ghost function AbsFile(d: Disk, f: File): AFile {
    AFile(f.kind, Content(d, f), f.stamp)
  }

  ghost function AbsOf(g: Geo, d: Disk, files: map<nat, File>): Abs
    requires g.Valid() && g.Fits(d)
  {
    Abs(g.BlockSize(), g.MaxInodes(), AbsFiles(d, files), |g.Free(d)|)
  }

  ghost function AbsFiles(d: Disk, files: map<nat, File>): map<nat, AFile> {
    map r | r in files :: AbsFile(d, files[r])
  }

  // ---- Steps that keep a volume consistent ----

  /** Every file but `r` is on `e` as it is on `d`. */
  ghost predicate SameFiles(bs: nat, d: Disk, e: Disk, files: map<nat, File>, r: nat)
    requires BlockSizeOk(bs)
  {
    forall q | q in files && q != r :: FileRep(bs, e, files[q]) && AbsFile(e, files[q]) == AbsFile(d, files[q])
  }

  /** Changes that touch neither the blocks of a file nor the metadata before the block bitmap. */
  lemma SameFilesKept(g: Geo, d: Disk, files: map<nat, File>, e: Disk, r: nat, x: set<nat>)
    requires Consistent(g, d, files) && |d| == |e|
    requires forall q | q in files && q != r :: Owned(g.BlockSize(), files[q]) !! x
    requires forall b | 0 <= b < |d| && b !in x && !(g.blockMap.start <= b < g.DataStart()) :: d[b] == e[b]
    ensures SameFiles(g.BlockSize(), d, e, files, r)
  {
    var bs := g.BlockSize();
    forall q | q in files && q != r ensures FileRep(bs, e, files[q]) && AbsFile(e, files[q]) == AbsFile(d, files[q]) {
      assert WellFormed(g, files[q]);
      FileKept(bs, d, e, files[q]);
    }
  }

  /** Changes past the metadata before the block bitmap do not show in the tables. */
  lemma TablesKept(g: Geo, d: Disk, files: map<nat, File>, e: Disk)
    requires g.Valid() && g.Fits(d) && g.Fits(e) && TablesRep(g, d, files)
    requires forall b | 1 <= b < g.blockMap.start :: d[b] == e[b]
    ensures TablesRep(g, e, files)
  {
    g.inodeMap.Frame(d, e);
    forall r: nat | r < g.MaxInodes() ensures g.table.At(e, r) == g.table.At(d, r) {
      g.table.Frame(d, e, r);
    }
  }

  /** Changing only which of the blocks without owner are free keeps the files. */
  lemma Remarked(g: Geo, d: Disk, files: map<nat, File>, e: Disk)
    requires Consistent(g, d, files) && g.Fits(e)
    requires SameOutside(d, e, g.blockMap.start, g.DataStart())
    requires forall r | r in files :: Owned(g.BlockSize(), files[r]) !! g.Free(e)
    requires forall b | b in g.Free(e) :: g.DataStart() <= b
    ensures Consistent(g, e, files)
    ensures AbsFiles(e, files) == AbsFiles(d, files)
  {
    hide *;
    ConsistentParts(g, d, files);
    MetadataFirst(g);
    SameSize(g, d, e);
    OnlyMarks(g, d, files, e);
    SameFilesKept(g, d, files, e, g.MaxInodes(), {});
    TablesKept(g, d, files, e);
    Assembled(g, d, files, e);
  }

  lemma OnlyMarks(g: Geo, d: Disk, files: map<nat, File>, e: Disk)
    requires g.Valid() && g.Fits(d) && g.Fits(e) && TablesRep(g, d, files) && Disjoint(g, d, files)
    requires SameOutside(d, e, g.blockMap.start, g.DataStart())
    requires forall r | r in files :: Owned(g.BlockSize(), files[r]) !! g.Free(e)
    requires forall b | b in g.Free(e) :: g.DataStart() <= b
    ensures Disjoint(g, e, files) && g.MaxInodes() !in files
    ensures forall b | 0 <= b < |d| && !(g.blockMap.start <= b < g.DataStart()) :: d[b] == e[b]
  {
    hide Owned, Geo.Free, InodeTable.At, Region.FreeSet;
  }

  lemma Assembled(g: Geo, d: Disk, files: map<nat, File>, e: Disk)
    requires Consistent(g, d, files) && g.Fits(e)
    requires g.MaxInodes() !in files && SameFiles(g.BlockSize(), d, e, files, g.MaxInodes())
    requires TablesRep(g, e, files) && Disjoint(g, e, files)
    ensures Consistent(g, e, files)
    ensures AbsFiles(e, files) == AbsFiles(d, files)
  {
    hide TablesRep, Disjoint, FileRep, WellFormed, Content;
  }

  /** Replacing the blocks of file `r`: its new blocks come from its old ones and the free ones, what it no
      longer uses is free again, and apart from its blocks only the block bitmap changes. */
  lemma Replaced(g: Geo, d: Disk, files: map<nat, File>, e: Disk, r: nat, f: File)
    requires Consistent(g, d, files) && g.Fits(e)
    requires r in files && f.home == files[r].home
    requires WellFormed(g, f) && FileRep(g.BlockSize(), e, f)
    requires Owned(g.BlockSize(), f) <= Owned(g.BlockSize(), files[r]) + g.Free(d)
    requires g.Free(e) == g.Free(d) + Owned(g.BlockSize(), files[r]) - Owned(g.BlockSize(), f)
    requires forall b | 0 <= b < |d| && b !in Owned(g.BlockSize(), f) && !(g.blockMap.start <= b < g.DataStart()) ::
      d[b] == e[b]
    ensures Consistent(g, e, files[r := f])
    ensures AbsFiles(e, files[r := f]) == AbsFiles(d, files)[r := AbsFile(e, f)]
    ensures |g.Free(e)| == |g.Free(d)| + CostOf(g.BlockSize(), |files[r].data|) - CostOf(g.BlockSize(), |f.data|)
  {
    ReplacedFrame(g, d, files, e, r, f);
    ReplacedCount(g, d, files, e, r, f);
    DisjointReplaced(g, d, files, e, r, f);
    TablesRenamed(g, e, files, r, f);
    AssembledWith(g, d, files, e, r, f);
  }

  lemma AssembledWith(g: Geo, d: Disk, files: map<nat, File>, e: Disk, r: nat, f: File)
    requires Consistent(g, d, files) && g.Fits(e)
    requires WellFormed(g, f) && FileRep(g.BlockSize(), e, f)
    requires SameFiles(g.BlockSize(), d, e, files, r) && TablesRep(g, e, files[r := f]) && Disjoint(g, e, files[r := f])
    ensures Consistent(g, e, files[r := f])
    ensures AbsFiles(e, files[r := f]) == AbsFiles(d, files)[r := AbsFile(e, f)]
  {
    hide TablesRep, Disjoint, FileRep, WellFormed, Content;
  }

  lemma ReplacedFrame(g: Geo, d: Disk, files: map<nat, File>, e: Disk, r: nat, f: File)
    requires Consistent(g, d, files) && g.Fits(e)
    requires r in files && f.home == files[r].home
    requires WellFormed(g, f)
    requires Owned(g.BlockSize(), f) <= Owned(g.BlockSize(), files[r]) + g.Free(d)
    requires forall b | 0 <= b < |d| && b !in Owned(g.BlockSize(), f) && !(g.blockMap.start <= b < g.DataStart()) ::
      d[b] == e[b]
    ensures SameFiles(g.BlockSize(), d, e, files, r)
    ensures TablesRep(g, e, files)
  {
    hide *;
    ConsistentParts(g, d, files);
    OwnedIsData(g, f);
    SameSize(g, d, e);
    OthersApart(g, d, files, r, f);
    MetadataFirst(g);
    SameFilesKept(g, d, files, e, r, Owned(g.BlockSize(), f));
    TablesKept(g, d, files, e);
  }

  lemma OwnedIsData(g: Geo, f: File)
    requires g.Valid() && WellFormed(g, f)
    ensures forall b | b in Owned(g.BlockSize(), f) :: g.DataStart() <= b < g.Total()
  {
  }

  lemma SameSize(g: Geo, d: Disk, e: Disk)
    requires g.Valid() && g.Fits(d) && g.Fits(e)
    ensures |d| == |e| == g.Total()
  {
  }

  lemma MetadataFirst(g: Geo)
    requires g.Valid()
    ensures 0 < g.blockMap.start <= g.DataStart() <= g.Total() && BlockSizeOk(g.BlockSize())
  {
  }

  lemma OthersApart(g: Geo, d: Disk, files: map<nat, File>, r: nat, f: File)
    requires Consistent(g, d, files) && r in files
    requires Owned(g.BlockSize(), f) <= Owned(g.BlockSize(), files[r]) + g.Free(d)
    ensures forall q | q in files && q != r :: Owned(g.BlockSize(), files[q]) !! Owned(g.BlockSize(), f)
    ensures TablesRep(g, d, files)
  {
    hide Owned, TablesRep, Region.FreeSet, WellFormed, FileRep;
  }

  lemma ReplacedCount(g: Geo, d: Disk, files: map<nat, File>, e: Disk, r: nat, f: File)
    requires Consistent(g, d, files) && g.Fits(e)
    requires r in files && WellFormed(g, f)
    requires Owned(g.BlockSize(), f) <= Owned(g.BlockSize(), files[r]) + g.Free(d)
    requires g.Free(e) == g.Free(d) + Owned(g.BlockSize(), files[r]) - Owned(g.BlockSize(), f)
    ensures |g.Free(e)| == |g.Free(d)| + CostOf(g.BlockSize(), |files[r].data|) - CostOf(g.BlockSize(), |f.data|)
  {
    OwnedCount(g.BlockSize(), f);
    OwnedCount(g.BlockSize(), files[r]);
    FreeCount(g.Free(d), Owned(g.BlockSize(), files[r]), Owned(g.BlockSize(), f));
  }

  lemma FreeCount(free: set<nat>, x: set<nat>, y: set<nat>)
    requires x !! free && y <= x + free
    ensures |free + x - y| == |free| + |x| - |y|
  {
  }

  lemma TablesRenamed(g: Geo, e: Disk, files: map<nat, File>, r: nat, f: File)
    requires g.Valid() && g.Fits(e) && TablesRep(g, e, files)
    requires r in files && f.home == files[r].home
    ensures TablesRep(g, e, files[r := f])
  {
  }

  lemma DisjointReplaced(g: Geo, d: Disk, files: map<nat, File>, e: Disk, r: nat, f: File)
    requires g.Valid() && g.Fits(d) && g.Fits(e) && Disjoint(g, d, files) && r in files
    requires forall b | b in Owned(g.BlockSize(), files[r]) :: g.DataStart() <= b
    requires Owned(g.BlockSize(), f) <= Owned(g.BlockSize(), files[r]) + g.Free(d)
    requires g.Free(e) == g.Free(d) + Owned(g.BlockSize(), files[r]) - Owned(g.BlockSize(), f)
    ensures Disjoint(g, e, files[r := f])
  {
  }

  /** Entering a new, empty file whose inode lies in a block nobody owns. */
  lemma Added(g: Geo, d: Disk, files: map<nat, File>, e: Disk, r: nat, f: File)
    requires Consistent(g, d, files) && g.Fits(e)
    requires r !in files && r < g.MaxInodes() && f.data == []
    requires WellFormed(g, f) && FileRep(g.BlockSize(), e, f)
    requires f.home !in g.Free(d) && forall q | q in files :: f.home !in Owned(g.BlockSize(), files[q])
    requires TablesRep(g, e, files[r := f])
    requires forall b | g.blockMap.start <= b < |d| && b != f.home :: d[b] == e[b]
    ensures Consistent(g, e, files[r := f]) && g.Free(e) == g.Free(d)
    ensures AbsFiles(e, files[r := f]) == AbsFiles(d, files)[r := AbsFile(e, f)]
  {
    NewOwner(g, f);
    assert g.DataStart() <= f.home;
    FreeKept(g, d, e, f.home);
    OutsideMetadata(g, d, files, e, r, {f.home});
    DisjointAdded(g, d, files, e, r, f);
    AssembledWith(g, d, files, e, r, f);
  }

  lemma NewOwner(g: Geo, f: File)
    requires g.Valid() && f.data == []
    ensures Owned(g.BlockSize(), f) == {f.home}
  {
  }

  lemma FreeKept(g: Geo, d: Disk, e: Disk, x: nat)
    requires g.Valid() && g.Fits(d) && g.Fits(e) && g.DataStart() <= x
    requires forall b | g.blockMap.start <= b < |d| && b != x :: d[b] == e[b]
    ensures g.Free(e) == g.Free(d)
  {
  }

  lemma DisjointAdded(g: Geo, d: Disk, files: map<nat, File>, e: Disk, r: nat, f: File)
    requires g.Valid() && g.Fits(d) && g.Fits(e) && Disjoint(g, d, files) && g.Free(e) == g.Free(d)
    requires r !in files && Owned(g.BlockSize(), f) == {f.home}
    requires f.home !in g.Free(d) && forall q | q in files :: f.home !in Owned(g.BlockSize(), files[q])
    ensures Disjoint(g, e, files[r := f])
  {
  }

  lemma DisjointRemoved(g: Geo, d: Disk, files: map<nat, File>, e: Disk, r: nat)
    requires g.Valid() && g.Fits(d) && g.Fits(e) && Disjoint(g, d, files) && g.Free(e) == g.Free(d)
    ensures Disjoint(g, e, files - {r})
  {
  }

  /** Files do not feel changes to metadata and to blocks that are not theirs. */
  lemma OutsideMetadata(g: Geo, d: Disk, files: map<nat, File>, e: Disk, r: nat, x: set<nat>)
    requires Consistent(g, d, files) && |d| == |e|
    requires forall q | q in files && q != r :: Owned(g.BlockSize(), files[q]) !! x
    requires forall b | g.blockMap.start <= b < |d| && b !in x :: d[b] == e[b]
    ensures SameFiles(g.BlockSize(), d, e, files, r)
  {
    var bs := g.BlockSize();
    forall q | q in files && q != r ensures FileRep(bs, e, files[q]) && AbsFile(e, files[q]) == AbsFile(d, files[q]) {
      assert WellFormed(g, files[q]);
      FileKept(bs, d, e, files[q]);
    }
  }

  /** Taking a file out of the tables; its blocks are then taken but without owner. */
  lemma Removed(g: Geo, d: Disk, files: map<nat, File>, e: Disk, r: nat)
    requires Consistent(g, d, files) && g.Fits(e) && r in files
    requires TablesRep(g, e, files - {r})
    requires forall b | g.blockMap.start <= b < |d| :: d[b] == e[b]
    ensures Consistent(g, e, files - {r}) && g.Free(e) == g.Free(d)
    ensures AbsFiles(e, files - {r}) == AbsFiles(d, files) - {r}
  {
    FreeKept(g, d, e, g.DataStart());
    OutsideMetadata(g, d, files, e, r, {});
    DisjointRemoved(g, d, files, e, r);
    AssembledWithout(g, d, files, e, r);
  }

  lemma AssembledWithout(g: Geo, d: Disk, files: map<nat, File>, e: Disk, r: nat)
    requires Consistent(g, d, files) && g.Fits(e)
    requires SameFiles(g.BlockSize(), d, e, files, r) && TablesRep(g, e, files - {r}) && Disjoint(g, e, files - {r})
    ensures Consistent(g, e, files - {r})
    ensures AbsFiles(e, files - {r}) == AbsFiles(d, files) - {r}
  {
    hide TablesRep, Disjoint, FileRep, WellFormed, Content;
  }

  /** The on-disk tables determine the files: a volume can be read in only one way. */
  lemma LayoutUnique(g: Geo, d: Disk, files: map<nat, File>, others: map<nat, File>)
    requires Consistent(g, d, files) && Consistent(g, d, others)
    ensures files == others
  {
    SameInodes(g, d, files, others);
    hide TablesRep, Disjoint, Region.Fits, InodeTable.Fits, FileRep, WellFormed;
    forall r | r in files ensures files[r] == others[r] {
      FileUnique(g, d, files[r], others[r]);
    }
  }

  lemma SameInodes(g: Geo, d: Disk, files: map<nat, File>, others: map<nat, File>)
    requires g.Valid() && g.Fits(d) && TablesRep(g, d, files) && TablesRep(g, d, others)
    ensures files.Keys == others.Keys && forall r | r in files :: files[r].home == others[r].home
  {
  }

  lemma FileUnique(g: Geo, d: Disk, f: File, h: File)
    requires g.Valid() && WellFormed(g, f) && WellFormed(g, h) && f.home == h.home
    requires FileRep(g.BlockSize(), d, f) && FileRep(g.BlockSize(), d, h)
    ensures f == h
  {
    var bs := g.BlockSize();
    var s := d[f.home];
    assert Slot(s, Direct(bs)) == f.ind == h.ind;
    forall i | 0 <= i < |f.data| ensures f.data[i] == h.data[i] {
      if i < Direct(bs) {
        assert Slot(s, i) == SlotOf(bs, f, i) == SlotOf(bs, h, i);
      } else {
        assert Entry(d[f.ind], i - Direct(bs)) == f.data[i];
      }
    }
  }

  /** The numbers not in use are as many as the free bits of the inode bitmap. */
  lemma UnusedCount(g: Geo, d: Disk, files: map<nat, File>)
    requires g.Valid() && g.Fits(d) && TablesRep(g, d, files)
    ensures |g.inodeMap.FreeSet(d)| == g.MaxInodes() - |files|
  {
    hide Region.FreeSet;
    var free, used := g.inodeMap.FreeSet(d), files.Keys;
    RangeSize(free + used, 0, g.MaxInodes());
    assert free !! used;
  }

  // ---- What the device shows ----

  /** Every block of a live file is a data block, marked in the block bitmap, and no other file's; the file
      is marked in the inode bitmap; on the device its direct slots name its first blocks in order and hold
      0 past the last one, and its last slot holds 0 exactly if the direct slots suffice. */
  lemma OwnershipOnDisk(g: Geo, d: Disk, files: map<nat, File>, r: nat)
    requires Consistent(g, d, files) && r in files
    ensures var f, bs := files[r], g.BlockSize();
      && f.home < |d| && |d[f.home]| == bs
      && (forall b | b in Owned(bs, f) :: g.DataStart() <= b < g.Total() && g.blockMap.On(d, b))
      && (forall q | q in files && q != r :: Owned(bs, files[q]) !! Owned(bs, f))
      && |Owned(bs, f)| == 1 + Cost(bs, f.size)
      && r < g.MaxInodes() && g.inodeMap.On(d, r) && g.table.At(d, r) == f.home != INVALID_BLOCK_ID
      && (forall i | 0 <= i < Direct(bs) :: Slot(d[f.home], i) == if i < |f.data| then f.data[i] else INVALID_BLOCK_ID)
      && (Slot(d[f.home], Direct(bs)) == INVALID_BLOCK_ID <==> f.size <= Direct(bs) * bs)
  {
    var f, bs := files[r], g.BlockSize();
    assert WellFormed(g, f) && FileRep(bs, d, f);
    assert f.home in Owned(bs, f);
    OwnedMarked(g, d, files, r);
    OwnedCount(bs, f);
    FitsDirect(f.size, bs);
    SlotsOnDisk(g, d, f);
    hide WellFormed, FileRep, Region.FreeSet, CeilDiv, Owned, Region.On;
  }

  /** Bitmap and table agree about every number: it is marked exactly if it has an entry, which is exactly if
      it has a file. */
  lemma NumbersOnDisk(g: Geo, d: Disk, files: map<nat, File>, r: nat)
    requires Consistent(g, d, files) && r < g.MaxInodes()
    ensures g.inodeMap.On(d, r) <==> g.table.At(d, r) != INVALID_BLOCK_ID
    ensures g.inodeMap.On(d, r) <==> r in files
  {
    if r in files {
      OwnedMarked(g, d, files, r);
    } else {
      assert r in g.inodeMap.FreeSet(d);
    }
  }

  lemma SlotsOnDisk(g: Geo, d: Disk, f: File)
    requires g.Valid() && g.Fits(d) && BlocksOk(g, f) && FileRep(g.BlockSize(), d, f)
    ensures |d[f.home]| == g.BlockSize()
    ensures forall i | 0 <= i < Direct(g.BlockSize()) ::
      Slot(d[f.home], i) == if i < |f.data| then f.data[i] else INVALID_BLOCK_ID
    ensures Slot(d[f.home], Direct(g.BlockSize())) == INVALID_BLOCK_ID <==> |f.data| <= Direct(g.BlockSize())
  {
  }

  lemma FitsDirect(size: nat, bs: nat)
    requires BlockSizeOk(bs)
    ensures CeilDiv(size, bs) <= Direct(bs) <==> size <= Direct(bs) * bs
  {
    CeilDivBounds(size, bs);
    var c, m := CeilDiv(size, bs), Direct(bs);
    if c <= m { MulMono(c, m, bs); } else { MulMono(m, c - 1, bs); }
  }

  lemma OwnedMarked(g: Geo, d: Disk, files: map<nat, File>, r: nat)
    requires Consistent(g, d, files) && r in files
    ensures forall b | b in Owned(g.BlockSize(), files[r]) :: g.DataStart() <= b < g.Total() && g.blockMap.On(d, b)
    ensures r < g.MaxInodes() && g.inodeMap.On(d, r) && g.table.At(d, r) == files[r].home != INVALID_BLOCK_ID
  {
    assert WellFormed(g, files[r]);
    forall b | b in Owned(g.BlockSize(), files[r]) ensures g.DataStart() <= b < g.Total() && g.blockMap.On(d, b) {
      assert b !in g.Free(d);
    }
    assert files[r].home in Owned(g.BlockSize(), files[r]);
    assert r !in g.inodeMap.FreeSet(d);
  }

  // ---- A new volume ----

  /** With empty tables and every block past the metadata free, there are no files. */
  lemma NewVolume(g: Geo, d: Disk, m: Disk, e: Disk)
    requires g.Valid() && g.Fits(d) && g.Fits(m) && g.Fits(e)
    requires forall r: nat :: r in g.inodeMap.FreeSet(d) <==> r < g.MaxInodes()
    requires forall r | 0 <= r < g.MaxInodes() :: g.table.At(d, r) == INVALID_BLOCK_ID
    requires SameOutside(d, m, g.blockMap.start, g.DataStart())
    requires forall b: nat :: b in g.Free(m) <==> g.DataStart() <= b < g.Total()
    requires SameOutside(m, e, 0, 1)
    ensures Consistent(g, e, map[])
    ensures AbsOf(g, e, map[]) == Abs(g.BlockSize(), g.MaxInodes(), map[], g.Total() - g.DataStart())
  {
    assert TablesRep(g, d, map[]);
    TablesKept(g, d, map[], e);
    g.blockMap.Frame(m, e);
    assert g.Free(e) == g.Free(m);
    RangeSize(g.Free(m), g.DataStart(), g.Total());
  }

  lemma {:induction false} RangeSize(s: set<nat>, lo: nat, hi: nat)
    requires lo <= hi && forall b: nat :: b in s <==> lo <= b < hi
    ensures |s| == hi - lo
    decreases hi
  {
    if lo == hi {
      assert s == {};
    } else {
      RangeSize(s - {hi - 1}, lo, hi - 1);
      assert s == (s - {hi - 1}) + {hi - 1};
    }
  }
}
