/** Runs on a device: any sequence of calls does to the volume what the abstract file system says, and
    returns what it says. */
module Runs {
  import opened Results
  import opened BlockDevice
  import opened Regions
  import opened Inodes
  import opened InodeManagers
  import opened Layout
  import opened FileSystem
  import opened AbstractRuns
  import A = AbstractFs
  import D = AbstractDirs
  import O = DirectoryOps
  import C = Accounting
  import N = Namespace
  import T = Forest
  import U = Outcomes
  import FB = FileBlocks
  import G = Geometry

  /** A valid volume is within its limits. */
  lemma ViewProper(fs: FileOperation)
    requires fs.Valid()
    ensures Proper(fs.View()) && D.SizesOk(fs.View())
  {
    O.Sizes(fs);
    FewInodes(fs);
    hide FileOperation.View, Proper;
    forall r | r in fs.files
      ensures r in fs.View().files && r < fs.View().maxInodes
      ensures |fs.View().files[r].content| <= MaxFileSize(fs.View().bs)
    {
      FileWithinLimits(fs, r);
    }
    SameFilesInView(fs);
    AllProper(fs.View());
  }

  lemma FewInodes(fs: FileOperation)
    requires fs.Valid()
    ensures 0 < fs.View().maxInodes
  {
  }

  lemma SameFilesInView(fs: FileOperation)
    requires fs.Valid()
    ensures fs.View().files.Keys == fs.files.Keys
  {
    hide Consistent;
  }

  lemma AllProper(a: A.Abs)
    requires D.SizesOk(a) && 0 < a.maxInodes
    requires forall r | r in a.files :: r < a.maxInodes && |a.files[r].content| <= MaxFileSize(a.bs)
    ensures Proper(a)
  {
  }

  lemma FileWithinLimits(fs: FileOperation, r: nat)
    requires fs.Valid() && r in fs.files
    ensures r in fs.View().files && r < fs.View().maxInodes && |fs.View().files[r].content| <= MaxFileSize(fs.View().bs)
  {
    fs.InView(r);
    fs.FileOnDisk(r);
    fs.BlockSizes();
    fs.Basics();
    FB.BlockLimit(fs.files[r].size, fs.bm.blockSize);
    NumberInRange(fs.G(), fs.bm.disk, fs.files, r);
    hide FileOperation.Valid, Consistent, FileRep, FB.Apart;
  }

  lemma NumberInRange(g: Geo, d: Disk, files: map<nat, File>, r: nat)
    requires Consistent(g, d, files) && r in files
    ensures r < AbsOf(g, d, files).maxInodes
  {
  }

  /** Opens the volume of a handle again. */
  method Remount(fs: FileOperation) returns (h: FileOperation)
    requires fs.Valid()
    modifies fs.bm`disk, fs.bm.data
    ensures fs.Valid() && fs.View() == old(fs.View())
    ensures fresh(h) && h.Valid() && h.Sibling(fs) && h.View() == fs.View()
    ensures fs.bm.disk == old(fs.bm.disk) && h.G() == fs.G() && h.files == fs.files == old(fs.files)
  {
    hide FileOperation.Valid, FileOperation.View, Formatted;
    fs.Basics();
    fs.Reopens();
    h := new FileOperation.CreateFromRaw(fs.bm);
    h.Basics();
    fs.StillValid(fs.files);
    fs.HandlesAgree(h);
    h.Siblings(fs);
  }

  method Perform(fs: FileOperation, op: Op) returns (h: FileOperation, o: Outcome)
    requires fs.Valid()
    modifies fs`files, fs.bm`disk, fs.bm.data
    ensures h.Valid() && h.Sibling(fs) && (h == fs || fresh(h))
    ensures D.SizesOk(old(fs.View())) && (h.View(), o) == Step(old(fs.View()), op)
  {
    hide FileOperation.Valid, FileOperation.View, A.WriteFile, A.AllocInode, A.RemoveFile, A.ReadFile, A.WriteAt,
      A.ReadAt,
      A.ResizeFile, A.GetKindAttr, D.Lookup, D.MkHelper, D.Unlink;
    O.Sizes(fs);
    fs.Siblings(fs);
    hide FileOperation.Sibling;
    h := fs;
    match op
    case AllocInode(kind, now) => var r := fs.AllocInode(kind, now); o := Number(r);
    case WriteFile(id, content, now) => var r := fs.WriteFile(id, content, now); o := Nothing(r);
    case WriteAt(id, data, off, now) => var r := fs.WriteFileAt(id, data, off, now); o := Number(r);
    case Resize(id, sz, now) => var r := fs.Resize(id, sz, now); o := NewAttr(r);
    case RemoveFile(id) => var r := fs.RemoveFile(id); o := Nothing(r);
    case ReadFile(id) => var r := fs.ReadFile(id); o := Text(r);
    case ReadAt(id, sz, off) => var r := fs.ReadFileAt(id, sz, off); o := Text(r);
    case GetTypeAttr(id) => var r := fs.GetTypeAttr(id); o := KindAttr(r);
    case Lookup(id, name) => var r := O.Lookup(fs, id, name); o := Number(r);
    case MkHelper(id, name, kind, now) => var r := O.MkHelper(fs, id, name, kind, now); o := Number(r);
    case Unlink(id, name, now) => var r := O.Unlink(fs, id, name, now); o := Nothing(r);
    case CountFree =>
      var n := fs.GetFreeBlocksNum();
      var m := fs.GetFreeInodeNum();
      o := Free(n, m);
    case Reopen =>
      h := Remount(fs);
      o := Nothing(Ok(()));
  }

  /** Refinement over every run, with the device closed and opened again at any point. */
  method PerformAll(fs: FileOperation, ops: seq<Op>) returns (h: FileOperation, outs: seq<Outcome>)
    requires fs.Valid()
    modifies fs`files, fs.bm`disk, fs.bm.data
    ensures h.Valid() && h.bm == fs.bm && (h == fs || fresh(h))
    ensures D.SizesOk(old(fs.View())) && (h.View(), outs) == Run(old(fs.View()), ops)
  {
    hide FileOperation.Valid, FileOperation.View, Step;
    O.Sizes(fs);
    h, outs := fs, [];
    for i := 0 to |ops|
      invariant h.Valid() && h.bm == fs.bm && (h == fs || fresh(h))
      invariant (h.View(), outs) == Run(old(fs.View()), ops[..i])
    {
      RunStep(old(fs.View()), ops, i);
      var o;
      h, o := Perform(h, ops[i]);
      outs := outs + [o];
    }
    assert ops[..|ops|] == ops;
  }

  /** Refinement with any number of handles on the device, used in any order: call `i` goes to handle
      `who[i]`, and the handle it comes back with is added to them. Every handle serves what any of them did; only
      the ghost record of the files has to be passed on. */
  method PerformAmong(fs: seq<FileOperation>, who: seq<nat>, ops: seq<Op>)
      returns (hs: seq<FileOperation>, outs: seq<Outcome>)
    requires |fs| > 0 && forall h | h in fs :: h.Valid() && h.Sibling(fs[0])
    requires |who| == |ops| && forall i | 0 <= i < |ops| :: who[i] < |fs| + i
    modifies fs`files, fs[0].bm`disk, fs[0].bm.data
    ensures fs <= hs && |hs| == |fs| + |ops|
    ensures D.SizesOk(old(fs[0].View())) && outs == Run(old(fs[0].View()), ops).1
    ensures forall h | h in hs :: h.Valid() && h.bm == fs[0].bm && h.View() == Run(old(fs[0].View()), ops).0
  {
    hide FileOperation.Valid, FileOperation.View, FileOperation.Sibling, Step;
    O.Sizes(fs[0]);
    hs, outs := fs, [];
    ghost var a := fs[0].View();
    forall h | h in hs ensures h.bm == fs[0].bm && h.View() == a {
      h.SameDevice(fs[0]);
      h.HandlesAgree(fs[0]);
    }
    assert ops[..0] == [];
    NoCalls(a);
    for i := 0 to |ops|
      invariant fs <= hs && |hs| == |fs| + i && forall h | h in hs :: h in fs || fresh(h)
      invariant forall h | h in hs :: h.Valid() && h.Sibling(fs[0]) && h.bm == fs[0].bm
      invariant forall h | h in hs :: h.View() == Run(a, ops[..i]).0
      invariant outs == Run(a, ops[..i]).1
    {
      RunStep(a, ops, i);
      var used := hs[who[i]];
      assert used in hs;
      assert used in fs || fresh(used);
      assert used.bm == fs[0].bm && used.bm.data == fs[0].bm.data;
      var h, o := Perform(used, ops[i]);
      hs, outs := hs + [h], outs + [o];
      h.SiblingsOf(used, fs[0]);
      forall g | g in hs { g.files := h.files; }
      forall g | g in hs ensures g.Valid() && g.View() == h.View() {
        g.SiblingsOf(fs[0], h);
        g.Serves(h);
      }
    }
    assert ops[..|ops|] == ops;
  }

  /** The super block, the inode table and the two bitmaps. */
  function MetadataFor(bs: nat, total: nat, maxInodes: nat): nat
    requires BlockSizeOk(bs)
  {
    ReservedFor(maxInodes, bs) + CeilDiv(total, 8 * bs)
  }

  /** What a new volume of this geometry looks like. */
  function NewVolumeView(bs: nat, total: nat, maxInodes: nat): A.Abs
    requires BlockSizeOk(bs) && MetadataFor(bs, total, maxInodes) <= total
  {
    A.Abs(bs, SupportedFor(maxInodes, bs), map[], total - MetadataFor(bs, total, maxInodes))
  }

  /** A new volume in numbers: the inodes asked for, rounded up to whole blocks of their bitmap; one block, and
      the blocks that an 8-byte entry for each of them, a bit for each of them, and a bit for each block take; the
      rest is free. */
  lemma NewVolumeCounts(bs: nat, total: nat, maxInodes: nat, maps: nat, inodes: nat)
    requires BlockSizeOk(bs) && bs >= 52
    requires maps == (maxInodes + 8 * bs - 1) / (8 * bs) && inodes == maps * (8 * bs)
    ensures MetadataFor(bs, total, maxInodes)
      == 1 + (inodes + bs / 8 - 1) / (bs / 8) + maps + (total + 8 * bs - 1) / (8 * bs)
    ensures MetadataFor(bs, total, maxInodes) <= total ==>
      NewVolumeView(bs, total, maxInodes) == A.Abs(bs, inodes, map[], total - MetadataFor(bs, total, maxInodes))
  {
    G.MetadataSizes(bs, total, maxInodes);
    hide CeilDiv;
  }

  /** What the counters say at first. */
  lemma FirstCounters(a: A.Abs)
    requires D.SizesOk(a) && a.files == map[]
    ensures Run(a, [CountFree]) == (a, [Free(a.free, a.maxInodes)])
  {
    RunLast(a, [], CountFree);
    NoCalls(a);
    var o := Step(a, CountFree).1;
    assert [] + [CountFree] == [CountFree] && [] + [o] == [o];
    hide Run;
  }

  /** 32768 blocks of 512 bytes for 8192 inodes: 139 blocks of metadata. */
  lemma SampleVolume()
    ensures MetadataFor(512, 32768, 8192) == 139
    ensures NewVolumeView(512, 32768, 8192) == A.Abs(512, 8192, map[], 32629)
    ensures Run(NewVolumeView(512, 32768, 8192), [CountFree]).1 == [Free(32629, 8192)]
  {
    NewVolumeCounts(512, 32768, 8192, 2, 8192);
    FirstCounters(A.Abs(512, 8192, map[], 32629));
    hide *;
  }

  /** From a new volume, every run is a run of the abstract file system. Metadata, free blocks, the blocks of
      the files and those lost on the way are all there is, and none are lost exactly if no call was one that
      loses blocks. Directories are tidy and without circles if every call was one that keeps them so. */
  method MakeAndPerformAll(bm: BlockManager, maxInodes: nat, ops: seq<Op>)
      returns (h: FileOperation, outs: seq<Outcome>)
    requires bm.Valid() && BlockSizeOk(bm.blockSize) && bm.blockCnt < 0x1_0000_0000 && 0 < maxInodes
    requires MetadataFor(bm.blockSize, bm.blockCnt, maxInodes) <= bm.blockCnt
    modifies bm`disk, bm.data
    ensures h.Valid() && h.bm == bm
    ensures var a := NewVolumeView(bm.blockSize, bm.blockCnt, maxInodes);
      && Proper(a) && (h.View(), outs) == Run(a, ops)
      && MetadataFor(bm.blockSize, bm.blockCnt, maxInodes) + C.Accounted(h.View()) + C.LostOver(a, ops) == bm.blockCnt
      && (C.LostOver(a, ops) == 0 <==> forall i | 0 <= i < |ops| :: !U.LosesBlocks(StateAt(a, ops, i), ops[i]))
      && ((forall i | 0 <= i < |ops| :: N.KeepsTidy(StateAt(a, ops, i), ops[i])) ==> N.Tidy(h.View()))
      && ((forall i | 0 <= i < |ops| :: T.KeepsAcyclic(StateAt(a, ops, i), ops[i])) ==> T.Acyclic(N.Dirs(h.View())))
  {
    hide FileOperation.Valid, FileOperation.View, Step, Run, N.KeepsTidy, N.Tidy, N.Dirs, T.KeepsAcyclic, T.Acyclic,
      Proper, C.Accounted, C.LostOver, U.LosesBlocks, CeilDiv;
    var fs := new FileOperation(bm, maxInodes);
    ViewProper(fs);
    ghost var a := fs.View();
    NewAccounts(a);
    h, outs := PerformAll(fs, ops);
    ViewProper(h);
    C.RunAccounts(a, ops);
    C.NothingLost(a, ops);
    N.NewIsTidy(a);
    N.RunTidy(a, ops, |ops|);
    NoDirectoriesYet(a);
    T.RunAcyclic(a, ops, |ops|);
    StateAtEnds(a, ops);
  }

  lemma NoDirectoriesYet(a: A.Abs)
    requires a.files == map[]
    ensures N.Dirs(a) == map[] && T.Acyclic(N.Dirs(a))
  {
    T.NoDirectories();
  }

  lemma NewAccounts(a: A.Abs)
    requires Proper(a) && a.files == map[]
    ensures C.Accounted(a) == a.free
  {
    C.NothingUsed(a.bs, a.maxInodes);
  }
}
