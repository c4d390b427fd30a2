/** Runs on a new volume that end otherwise than one would expect, one for each way in which calls fail halfway. */
module UnexpectedRuns {
  import opened Bytes
  import opened Results
  import opened Bitmaps
  import opened Regions
  import opened Inodes
  import opened DirectoryText
  import opened AbstractRuns
  import opened Outcomes
  import opened Accounting
  import opened EntryLists
  import opened Namespace
  import L = FileLaws
  import F = Forest
  import FB = FileBlocks
  import A = AbstractFs
  import D = AbstractDirs

  // ---- Volumes with one and two files ----

  function OneFile(a: A.Abs, f: A.AFile, free: nat): A.Abs {
    a.(files := map[0 := f], free := free)
  }

  function TwoFiles(a: A.Abs, f: A.AFile, g: A.AFile, free: nat): A.Abs {
    a.(files := map[0 := f, 1 := g], free := free)
  }

  lemma FilesAre(a: A.Abs, f: A.AFile, g: A.AFile, free: nat)
    ensures OneFile(a, f, free) == a.(files := map[0 := f], free := free)
    ensures TwoFiles(a, f, g, free) == a.(files := map[0 := f, 1 := g], free := free)
  {
  }

  lemma FirstFile(a: A.Abs, kind: Kind, now: u64)
    requires D.SizesOk(a) && a.files == map[] && 0 < a.free && 0 < a.maxInodes
    ensures var b := OneFile(a, A.AFile(kind, [], now), a.free - 1);
      D.SizesOk(b) && Step(a, AllocInode(kind, now)) == (b, Number(Ok(1)))
  {
    assert a.files[0 := A.AFile(kind, [], now)] == map[0 := A.AFile(kind, [], now)];
  }

  lemma FirstWritten(a: A.Abs, kind: Kind, text: Text, now: u64, free: nat)
    requires D.SizesOk(a) && 3 <= a.maxInodes && |text| <= MaxFileSize(a.bs) && A.Cost(a.bs, |text|) <= free
    ensures var b := OneFile(a, A.AFile(kind, [], now), free);
      var c := OneFile(a, A.AFile(kind, text, now), free - A.Cost(a.bs, |text|));
      D.SizesOk(b) && D.SizesOk(c) && Step(b, WriteFile(1, text, now)) == (c, Nothing(Ok(())))
  {
    EmptyCost(a.bs);
    assert map[0 := A.AFile(kind, [], now)][0 := A.AFile(kind, text, now)] == map[0 := A.AFile(kind, text, now)];
    hide A.Cost, MaxFileSize;
  }

  lemma SecondNumber(b: A.Abs)
    requires b.files.Keys == {0} && 2 <= b.maxInodes
    ensures A.FirstUnused(b.files, 0, b.maxInodes) == Some(1)
  {
  }

  lemma SecondFile(a: A.Abs, f: A.AFile, kind: Kind, now: u64, free: nat)
    requires D.SizesOk(a) && 2 <= a.maxInodes && 0 < free
    ensures var b, c := OneFile(a, f, free), TwoFiles(a, f, A.AFile(kind, [], now), free - 1);
      D.SizesOk(b) && D.SizesOk(c) && Step(b, AllocInode(kind, now)) == (c, Number(Ok(2)))
  {
    SecondNumber(OneFile(a, f, free));
    assert map[0 := f][1 := A.AFile(kind, [], now)] == map[0 := f, 1 := A.AFile(kind, [], now)];
    hide A.FirstUnused;
  }

  lemma SecondWritten(a: A.Abs, f: A.AFile, kind: Kind, text: Text, now: u64, free: nat)
    requires D.SizesOk(a) && 4 <= a.maxInodes && |text| <= MaxFileSize(a.bs) && A.Cost(a.bs, |text|) <= free
    ensures var g, h := A.AFile(kind, [], now), A.AFile(kind, text, now);
      var b, c := TwoFiles(a, f, g, free), TwoFiles(a, f, h, free - A.Cost(a.bs, |text|));
      D.SizesOk(b) && D.SizesOk(c) && Step(b, WriteFile(2, text, now)) == (c, Nothing(Ok(())))
  {
    EmptyCost(a.bs);
    var g, h := A.AFile(kind, [], now), A.AFile(kind, text, now);
    assert map[0 := f, 1 := g][1 := h] == map[0 := f, 1 := h];
    hide A.Cost, MaxFileSize;
  }

  // ---- Calls that fail halfway ----

  /** On every new volume that one file can fill, writing as many blocks as there are loses all of them but
      the one of the inode. */
  lemma FullWriteLosesBlocks(a: A.Abs, content: seq<byte>, now: u64)
    requires Proper(a) && a.files == map[] && 3 <= a.maxInodes && 2 <= a.free <= Direct(a.bs) + Entries(a.bs)
    requires |content| == a.free * a.bs
    ensures var (b, outs) := Run(a, [AllocInode(Regular, now), WriteFile(1, content, now)]);
      && outs == [Number(Ok(1)), Nothing(Err(OutOfResource))]
      && b.bs == a.bs && b.free == 0 && Accounted(a) == a.free && Accounted(b) == 1
  {
    var x, y := AllocInode(Regular, now), WriteFile(1, content, now);
    FirstFile(a, Regular, now);
    var b := Step(a, x).0;
    CeilDivUnique(|content|, a.bs, a.free);
    FB.BlockLimit(|content|, a.bs);
    EmptyCost(a.bs);
    WriteOutcome(b, 1, content, now);
    NothingUsed(a.bs, a.maxInodes);
    StepAccounts(a, x);
    StepProper(a, x);
    StepAccounts(b, y);
    TwoCalls(a, x, y);
    hide Run, Accounted, CeilDiv, MaxFileSize, A.WriteFile, Step;
  }

  /** On every new volume with two data blocks, a directory takes one, and the first file made in it the
      other: its entry no longer fits. The call fails, but the file stays, and no name leads to it. */
  lemma MkHelperLeavesFile(a: A.Abs, name: Text, kind: Kind, now: u64)
    requires Proper(a) && a.files == map[] && 4 <= a.maxInodes && a.free == 2
    ensures var (b, outs) := Run(a, [AllocInode(Directory, now), MkHelper(1, name, kind, now)]);
      && outs == [Number(Ok(1)), Number(Err(OutOfResource))]
      && b.files == map[0 := A.AFile(Directory, [], now), 1 := A.AFile(kind, [], now)] && b.free == 0
      && A.ReadFile(b, 1) == Ok([]) && A.ReadFile(b, 2) == Ok([]) && D.Lookup(b, 1, name) == Err(NotExist)
  {
    var x, y := AllocInode(Directory, now), MkHelper(1, name, kind, now);
    FirstFile(a, Directory, now);
    var b := Step(a, x).0;
    SecondNumber(b);
    EmptyCost(a.bs);
    SomeCost(a.bs, |AppendToDirectory([], name, 2)|);
    EmptyText(b, name);
    MkHelperExact(b, 1, name, kind, now);
    var c := Step(b, y).0;
    assert b.files[1 := A.AFile(kind, [], now)] == map[0 := A.AFile(Directory, [], now), 1 := A.AFile(kind, [], now)];
    EmptyText(c, name);
    TwoCalls(a, x, y);
    hide Run, A.FirstUnused, A.Cost, MaxFileSize, Parse, AppendToDirectory, D.FindEntry;
  }

  lemma SomeCost(bs: nat, len: nat)
    requires BlockSizeOk(bs) && len > 0
    ensures A.Cost(bs, len) > 0
  {
    CeilDivBounds(len, bs);
  }

  lemma EmptyText(a: A.Abs, name: Text)
    requires A.ReadFile(a, 1) == Ok([])
    ensures D.Lookup(a, 1, name) == Err(NotExist)
  {
  }

  /** On every new volume with two data blocks whose files have a direct slot, a regular file whose only
      entry names the file itself can be unlinked from itself: the call fails, but the file is gone. */
  lemma OwnEntryUnlinked(a: A.Abs, name: Text, now: u64)
    requires Proper(a) && a.files == map[] && 3 <= a.maxInodes && 2 <= a.free && 0 < Direct(a.bs)
    requires CleanName(name) && |name| + 2 <= a.bs
    ensures var content := PrintEntry(Entry(name, 1));
      Run(a, [AllocInode(Regular, now), WriteFile(1, content, now), Unlink(1, name, now)])
      == (a, [Number(Ok(1)), Nothing(Ok(())), Nothing(Err(InvalidArg))])
  {
    hide *;
    ProperSizes(a);
    SizesKept(a, a);
    ShortEntry(name);
    var content := PrintEntry(Entry(name, 1));
    OneBlock(a.bs, |content|);
    FirstFile(a, Regular, now);
    FirstWritten(a, Regular, content, now, a.free - 1);
    OwnEntryFails(a, name, now);
    ThreeCalls(a, AllocInode(Regular, now), WriteFile(1, content, now), Unlink(1, name, now));
  }

  lemma OwnEntryFails(a: A.Abs, name: Text, now: u64)
    requires D.SizesOk(a) && a.files == map[] && 2 <= a.free && 3 <= a.maxInodes && CleanName(name)
    requires var len := |PrintEntry(Entry(name, 1))|; A.Cost(a.bs, len) == 1 && len <= Direct(a.bs) * a.bs
    ensures var c := OneFile(a, A.AFile(Regular, PrintEntry(Entry(name, 1)), now), a.free - 2);
      D.SizesOk(c) && Step(c, Unlink(1, name, now)) == (a, Nothing(Err(InvalidArg)))
  {
    var c := OneFile(a, A.AFile(Regular, PrintEntry(Entry(name, 1)), now), a.free - 2);
    ParsePrintedEntry(Entry(name, 1));
    assert D.FindEntry([Entry(name, 1)], name) == Some(1);
    hide Parse, PrintEntry, CleanName, A.Cost, MaxFileSize, D.FindEntry, Direct, RmFromDirectory;
    assert D.Lookup(c, 1, name) == Ok(1);
    UnlinkExact(c, 1, name, now);
    StepSizes(c, Unlink(1, name, now));
    assert c.files - {0} == map[];
  }

  lemma OneBlock(bs: nat, len: nat)
    requires BlockSizeOk(bs) && 0 < len <= bs && 0 < Direct(bs)
    ensures A.Cost(bs, len) == 1 && len <= MaxFileSize(bs) && len <= Direct(bs) * bs
  {
    CeilDivUnique(len, bs, 1);
    FB.BlockLimit(len, bs);
    MulOne(Direct(bs), bs);
  }

  lemma MulOne(n: nat, bs: nat)
    requires n > 0
    ensures bs <= n * bs
  {
    assert n * bs == (n - 1) * bs + bs;
  }

  // ---- More calls that leave something behind ----

  lemma OneCall(a: A.Abs, x: Op)
    requires D.SizesOk(a)
    ensures Run(a, [x]) == (Step(a, x).0, [Step(a, x).1])
  {
    hide Step;
    RunFirst(a, x, []);
    NoCalls(Step(a, x).0);
    assert [x] + [] == [x] && [Step(a, x).1] + [] == [Step(a, x).1];
  }

  /** On every new volume with more data blocks than numbers, once all numbers are given out one more file is
      refused, and costs a block. */
  lemma NoNumberLosesBlock(a: A.Abs, kind: Kind, now: u64)
    requires Proper(a) && a.files == map[] && a.maxInodes < a.free
    ensures var (b, outs) := Run(a, L.Allocs(a.maxInodes, kind, now) + [AllocInode(kind, now)]);
      var was := Run(a, L.Allocs(a.maxInodes, kind, now)).0;
      && outs[a.maxInodes] == Number(Err(OutOfResource)) && A.FreeInodes(was) == 0
      && b == was.(free := was.free - 1) && Accounted(b) + 1 == Accounted(was)
  {
    hide *;
    ProperSizes(a);
    var ops, x := L.Allocs(a.maxInodes, kind, now), AllocInode(kind, now);
    var was := Run(a, ops).0;
    L.AllNumbersGivenOut(a, a.maxInodes, kind, now);
    RunProper(a, ops);
    RunLast(a, ops, x);
    StepAccounts(was, x);
    AllInUse(was, kind, now);
  }

  lemma AllInUse(a: A.Abs, kind: Kind, now: u64)
    requires D.SizesOk(a) && a.free > 0 && forall r: nat :: r in a.files <==> r < a.maxInodes
    ensures Step(a, AllocInode(kind, now)) == (a.(free := a.free - 1), Number(Err(OutOfResource)))
    ensures A.FreeInodes(a) == 0 && Lost(a, AllocInode(kind, now)) == 1
  {
    CountNumbers(a.files, a.maxInodes);
  }

  /** On every new volume, making an entry in a directory that is not there, under a number that is not given
      out next, leaves a file that no name leads to. */
  lemma MkHelperWithoutParent(a: A.Abs, id: nat, name: Text, kind: Kind, now: u64)
    requires Proper(a) && a.files == map[] && 0 < a.free && id > 1
    ensures var (b, outs) := Run(a, [MkHelper(id, name, kind, now)]);
      && outs == [Number(Err(InvalidArg))] && b.files == map[0 := A.AFile(kind, [], now)] && b.free == a.free - 1
      && Live(b, 1) && !Named(b, 1)
  {
    hide *;
    ProperSizes(a);
    MkHelperExact(a, id, name, kind, now);
    NoParent(a, id, name);
    MkStep(a, id, name, kind, now);
    OneCall(a, MkHelper(id, name, kind, now));
    assert a.files[0 := A.AFile(kind, [], now)] == map[0 := A.AFile(kind, [], now)];
    OneUnnamed(D.MkHelper(a, id, name, kind, now).0, A.AFile(kind, [], now));
  }

  lemma MkStep(a: A.Abs, id: nat, name: Text, kind: Kind, now: u64)
    requires D.SizesOk(a)
    ensures var (b, r) := D.MkHelper(a, id, name, kind, now); Step(a, MkHelper(id, name, kind, now)) == (b, Number(r))
  {
    hide D.MkHelper;
  }

  lemma OneUnnamed(a: A.Abs, f: A.AFile)
    requires a.files == map[0 := f] && f.content == []
    ensures Live(a, 1) && !Named(a, 1)
  {
    EmptyToken();
    EmptyList();
    hide Parse, Ids;
  }

  lemma NoParent(a: A.Abs, id: nat, name: Text)
    requires Proper(a) && a.files == map[] && 0 < a.free && id > 1 && D.SizesOk(a)
    ensures MakesFile(a, id, name) && Creatable(a) && !EntryFits(a, id, name) && NewId(a) == 1
    ensures MkError(a, id, name) == InvalidArg && MkLoss(a, id, name) == 0
  {
    hide AppendToDirectory;
  }

  /** ... and if that is the number that is given out, the new file is its own parent: the name leads from the
      file to itself, and a directory lies below itself. */
  lemma OwnParent(a: A.Abs, name: Text, kind: Kind, now: u64)
    requires Proper(a) && a.files == map[] && 3 <= a.maxInodes && 2 <= a.free && 0 < Direct(a.bs)
    requires CleanName(name) && |name| + 2 <= a.bs
    ensures var (b, outs) := Run(a, [MkHelper(1, name, kind, now)]);
      && outs == [Number(Ok(1))] && D.Lookup(b, 1, name) == Ok(1)
      && (F.Acyclic(Dirs(b)) <==> kind != Directory)
  {
    hide *;
    ProperSizes(a);
    var text, x := PrintEntry(Entry(name, 1)), MkHelper(1, name, kind, now);
    var b := OneFile(a, A.AFile(kind, text, now), a.free - 2);
    SizesKept(a, a);
    ShortEntry(name);
    OneBlock(a.bs, |text|);
    OwnParentMade(a, name, kind, now);
    ParsePrintedEntry(Entry(name, 1));
    FilesAre(a, A.AFile(kind, text, now), A.AFile(kind, text, now), a.free - 2);
    OnlyEntry(b, A.AFile(kind, text, now), Entry(name, 1));
    OneCall(a, x);
  }

  lemma OwnParentMade(a: A.Abs, name: Text, kind: Kind, now: u64)
    requires Proper(a) && D.SizesOk(a) && a.files == map[] && 3 <= a.maxInodes && 2 <= a.free
    requires var len := |PrintEntry(Entry(name, 1))|; A.Cost(a.bs, len) == 1 && len <= MaxFileSize(a.bs)
    ensures var b := OneFile(a, A.AFile(kind, PrintEntry(Entry(name, 1)), now), a.free - 2);
      Step(a, MkHelper(1, name, kind, now)) == (b, Number(Ok(1)))
  {
    var text := PrintEntry(Entry(name, 1));
    Appended([], Entry(name, 1));
    MkWrites(a, 1, name, kind, now);
    FirstFile(a, kind, now);
    FirstWritten(a, kind, text, now, a.free - 1);
    hide D.MkHelper, A.WriteFile, A.Cost, MaxFileSize, PrintEntry, AppendToDirectory;
  }

  /** A volume whose first file holds one entry and is its only directory, if it is one. */
  lemma OnlyEntry(b: A.Abs, f: A.AFile, e: Entry)
    requires 3 <= b.maxInodes && 0 in b.files && b.files[0] == f && Parse(f.content) == [e]
    requires forall r | r in b.files && r > 0 :: b.files[r].kind != Directory
    ensures D.Lookup(b, 1, e.name) == Ok(e.id)
    ensures Dirs(b) == if f.kind == Directory then map[0 := [e]] else map[]
    ensures F.Acyclic(Dirs(b)) <==> (f.kind == Directory ==> e.id != 1)
  {
    hide *;
    OnlyDirectory(b, f, e);
    F.NoDirectories();
    F.OneDirectory(e);
    FirstRead(b, f);
    LookupIn(b, 1, f.content, e.name);
    FindOnly(e, e.name);
  }

  lemma OnlyDirectory(b: A.Abs, f: A.AFile, e: Entry)
    requires 0 in b.files && b.files[0] == f && Parse(f.content) == [e]
    requires forall r | r in b.files && r > 0 :: b.files[r].kind != Directory
    ensures Dirs(b) == if f.kind == Directory then map[0 := [e]] else map[]
  {
    hide Parse;
  }

  lemma FirstRead(b: A.Abs, f: A.AFile)
    requires 3 <= b.maxInodes && 0 in b.files && b.files[0] == f
    ensures A.ReadFile(b, 1) == Ok(f.content)
  {
  }

  /** On every new volume with room for it, a name with a colon brings another name with it, which leads to
      any id one likes: making `name:k` in a directory makes `name` lead to `k`, and if there is no file `k`,
      the names are not those of live files any more. */
  lemma ForgedEntry(a: A.Abs, name: Text, k: u64, now: u64)
    requires Proper(a) && a.files == map[] && 4 <= a.maxInodes && 3 <= a.free && 0 < Direct(a.bs)
    requires CleanName(name) && |name + [COLON] + Digits(k)| + 2 <= a.bs
    ensures var forged := name + [COLON] + Digits(k);
      var (b, outs) := Run(a, [AllocInode(Directory, now), MkHelper(1, forged, Regular, now)]);
      && outs == [Number(Ok(1)), Number(Ok(2))] && D.Lookup(b, 1, name) == Ok(k) && !Tidy(b)
      && (TidyDirs(Dirs(b), b.files) <==> k == 1 || k == 2)
  {
    hide *;
    ProperSizes(a);
    SizesKept(a, a);
    var forged := name + [COLON] + Digits(k);
    var text, x, y := PrintEntry(Entry(forged, 2)), AllocInode(Directory, now), MkHelper(1, forged, Regular, now);
    var f, g := A.AFile(Directory, text, now), A.AFile(Regular, [], now);
    var b := TwoFiles(a, f, g, a.free - 3);
    ShortSecond(forged);
    OneBlock(a.bs, |text|);
    FirstFile(a, Directory, now);
    SecondMade(a, forged, now);
    ForgedParsed(name, k, 2);
    FilesAre(a, f, g, a.free - 3);
    OnlyEntry(b, f, Entry(name, k));
    ForgedTidy(b, name, k, now);
    TwoCalls(a, x, y);
  }

  lemma ShortSecond(name: Text)
    ensures |PrintEntry(Entry(name, 2))| == |name| + 2
  {
    assert Digits(2) == [ZERO + 2];
  }

  /** A regular file is made in an empty directory. */
  lemma SecondMade(a: A.Abs, name: Text, now: u64)
    requires D.SizesOk(a) && 4 <= a.maxInodes && 3 <= a.free
    requires var len := |PrintEntry(Entry(name, 2))|; A.Cost(a.bs, len) == 1 && len <= MaxFileSize(a.bs)
    ensures var b := OneFile(a, A.AFile(Directory, [], now), a.free - 1);
      var c := TwoFiles(a, A.AFile(Directory, PrintEntry(Entry(name, 2)), now), A.AFile(Regular, [], now), a.free - 3);
      D.SizesOk(b) && Step(b, MkHelper(1, name, Regular, now)) == (c, Number(Ok(2)))
  {
    var text := PrintEntry(Entry(name, 2));
    var b := OneFile(a, A.AFile(Directory, [], now), a.free - 1);
    Appended([], Entry(name, 2));
    SecondNumber(b);
    EmptyText(b, name);
    MkWrites(b, 1, name, Regular, now);
    SecondFile(a, A.AFile(Directory, [], now), Regular, now, a.free - 1);
    FirstOfTwoWritten(a, A.AFile(Regular, [], now), Directory, text, now, a.free - 2);
    hide D.MkHelper, D.Lookup, A.WriteFile, A.Cost, MaxFileSize, PrintEntry, AppendToDirectory, A.FirstUnused;
  }

  lemma FirstOfTwoWritten(a: A.Abs, g: A.AFile, kind: Kind, text: Text, now: u64, free: nat)
    requires D.SizesOk(a) && 4 <= a.maxInodes && |text| <= MaxFileSize(a.bs) && A.Cost(a.bs, |text|) <= free
    ensures var f, h := A.AFile(kind, [], now), A.AFile(kind, text, now);
      var b, c := TwoFiles(a, f, g, free), TwoFiles(a, h, g, free - A.Cost(a.bs, |text|));
      D.SizesOk(b) && D.SizesOk(c) && Step(b, WriteFile(1, text, now)) == (c, Nothing(Ok(())))
  {
    EmptyCost(a.bs);
    var f, h := A.AFile(kind, [], now), A.AFile(kind, text, now);
    assert map[0 := f, 1 := g][0 := h] == map[0 := h, 1 := g];
    hide A.Cost, MaxFileSize;
  }

  lemma ForgedParsed(name: Text, k: u64, id: u64)
    requires CleanName(name)
    ensures Parse(PrintEntry(Entry(name + [COLON] + Digits(k), id))) == [Entry(name, k)]
  {
    hide Parse, Digits, ParseId;
    var d, e := Digits(k), Digits(id);
    NoSlashInDigits(k);
    NoSlashInDigits(id);
    ParseLeadingDigits(k, [COLON] + e);
    ParseOne(name, d + ([COLON] + e));
    assert PrintEntry(Entry(name + [COLON] + d, id)) == name + [COLON] + (d + ([COLON] + e));
  }

  lemma ForgedTidy(b: A.Abs, name: Text, k: u64, now: u64)
    requires b.files.Keys == {0, 1} && Dirs(b) == map[0 := [Entry(name, k)]] && CleanName(name)
    requires b.files[0] == A.AFile(Directory, PrintEntry(Entry(name + [COLON] + Digits(k), 2)), now)
    ensures !Tidy(b) && (TidyDirs(Dirs(b), b.files) <==> k == 1 || k == 2)
  {
    hide *;
    EmptyList();
    AppendIds([], Entry(name, k));
    assert [] + [Entry(name, k)] == [Entry(name, k)];
    OneListTidy(Entry(name, k), b.files);
    NotPrinted(b, name, k, now);
    if Tidy(b) { TidyParts(b); }
  }

  lemma OneListTidy(e: Entry, files: map<nat, A.AFile>)
    requires files.Keys == {0, 1} && Ids([e]) == {e.id}
    ensures TidyDirs(map[0 := [e]], files) <==> e.id == 1 || e.id == 2
  {
    hide Ids;
    var dirs := map[0 := [e]];
    assert Distinct(dirs[0]);
    if TidyDirs(dirs, files) { assert e.id in Ids(dirs[0]) && e.id - 1 in files.Keys; }
  }

  lemma NotPrinted(b: A.Abs, name: Text, k: u64, now: u64)
    requires 0 in b.files && CleanName(name)
    requires b.files[0] == A.AFile(Directory, PrintEntry(Entry(name + [COLON] + Digits(k), 2)), now)
    ensures !Printed(b)
  {
    var t := b.files[0].content;
    ForgedParsed(name, k, 2);
    PrintStep([], Entry(name, k));
    assert Print(Parse(t)) == PrintEntry(Entry(name, k)) by { assert [] + [Entry(name, k)] == [Entry(name, k)]; }
    assert |t| > |name + [COLON] + Digits(k)|;
    hide Parse, Print, Digits;
  }

  // ---- A text that grows when an entry goes ----

  lemma {:induction false} DigitsAtLeast(n: nat, k: nat)
    requires n >= Pow10(k)
    ensures |Digits(n)| > k
  {
    if k > 0 { DigitsAtLeast(n / 10, k - 1); }
  }

  /** An entry without a name, its id written as a negative number. */
  const SHORT: Text := [COLON, MINUS, ZERO + 1]

  /** ... which reads as the largest id. */
  const LARGEST := Entry([], MAX_ID)

  /** `first`, then `n` of those entries. */
  function Shorts(first: Text, n: nat): (t: Text)
    ensures |t| == |first| + 4 * n
  {
    if n == 0 then first else Shorts(first, n - 1) + [SLASH] + SHORT
  }

  function Largest(n: nat): (l: seq<Entry>)
    ensures |l| == n && forall i | 0 <= i < n :: l[i] == LARGEST
  {
    if n == 0 then [] else Largest(n - 1) + [LARGEST]
  }

  lemma ShortParsed()
    ensures Parse(SHORT) == [LARGEST]
  {
    var digits: Text := [ZERO + 1];
    assert SHORT[1..] == [MINUS, ZERO + 1] && [MINUS, ZERO + 1][1..] == digits;
    DigitRunStops(digits, []);
    assert digits + [] == digits;
    assert Value(digits) == 1 by { assert digits[..0] == []; }
    assert digits[..1] == digits;
    assert ParseId([MINUS, ZERO + 1]) == MAX_ID;
    IndexOfUnique(SHORT, SLASH, 3);
    IndexOfUnique(SHORT, COLON, 0);
    assert SHORT[..3] == SHORT && SHORT[..0] == [];
  }

  lemma {:induction false} ShortsParsed(first: Text, n: nat)
    ensures Parse(Shorts(first, n)) == Parse(first) + Largest(n)
  {
    hide Parse;
    if n > 0 {
      ShortsParsed(first, n - 1);
      ShortParsed();
      ParseConcat(Shorts(first, n - 1), SHORT);
    }
  }

  lemma {:induction false} LargestKept(e: Entry, n: nat)
    requires e.name != []
    ensures Without([e] + Largest(n), e.name) == Largest(n)
  {
    hide *;
    WithoutStep([], e, e.name);
    LargestStep(n);
    if n == 0 {
      assert [e] + Largest(n) == [] + [e];
    } else {
      LargestKept(e, n - 1);
      WithoutStep([e] + Largest(n - 1), LARGEST, e.name);
      assert [e] + Largest(n) == [e] + Largest(n - 1) + [LARGEST];
    }
  }

  lemma LargestStep(n: nat)
    ensures LARGEST.name == [] && Largest(n) == if n == 0 then [] else Largest(n - 1) + [LARGEST]
  {
  }

  lemma LongestId()
    ensures |Digits(MAX_ID)| >= 20
  {
    assert Pow10(5) == 100_000;
    assert Pow10(10) == 10_000_000_000;
    assert Pow10(15) == 1_000_000_000_000_000;
    assert Pow10(19) == 10_000_000_000_000_000_000;
    DigitsAtLeast(MAX_ID, 19);
    hide Digits;
  }

  lemma {:induction false} LargestPrinted(n: nat)
    requires n > 0
    ensures |Print(Largest(n))| >= 22 * n - 1
  {
    LongestId();
    assert Largest(n)[..n - 1] == Largest(n - 1);
    hide Digits;
    if n > 1 { LargestPrinted(n - 1); }
  }

  /** Removing the first name from such a text makes it more than five times as long. */
  lemma TextGrows(e: Entry, n: nat)
    requires CleanName(e.name) && e.name != [] && n > 0
    ensures var s := Shorts(PrintEntry(e), n);
      D.FindEntry(Parse(s), e.name) == Some(e.id) && |RmFromDirectory(s, e.name)| >= 22 * n - 1
  {
    ParsePrintedEntry(e);
    ShortsParsed(PrintEntry(e), n);
    LargestKept(e, n);
    LargestPrinted(n);
    assert ([e] + Largest(n))[0] == e;
    hide Parse, Print, Without;
  }

  /** On every new volume with eight to sixteen data blocks: two files, the first empty, the second listing it
      and after it as many short entries as a block has bytes. Unlinking the first fails; the file is gone and its
      entry still there. */
  lemma EntryOutlivesFile(a: A.Abs, name: Text, kind: Kind, now: u64)
    requires Proper(a) && a.files == map[] && 4 <= a.maxInodes && 8 <= a.free <= 16
    requires CleanName(name) && name != [] && |name| + 2 <= a.bs
    ensures var text := Shorts(PrintEntry(Entry(name, 1)), a.bs);
      var x, y, z := AllocInode(Regular, now), AllocInode(kind, now), WriteFile(2, text, now);
      var (b, outs) := Run(a, [x, y, z, Unlink(2, name, now)]);
      && outs == [Number(Ok(1)), Number(Ok(2)), Nothing(Ok(())), Nothing(Err(OutOfResource))]
      && b.files == map[1 := A.AFile(kind, text, now)]
      && D.Lookup(b, 2, name) == Ok(1) && A.ReadFile(b, 1) == Err(InvalidArg)
  {
    hide *;
    ProperSizes(a);
    SizesKept(a, a);
    TextFits(a.bs, name);
    var text := Shorts(PrintEntry(Entry(name, 1)), a.bs);
    var x, y, z, u := AllocInode(Regular, now), AllocInode(kind, now), WriteFile(2, text, now), Unlink(2, name, now);
    var f := A.AFile(Regular, [], now);
    var free := a.free - 2 - A.Cost(a.bs, |text|);
    FirstFile(a, Regular, now);
    SecondFile(a, f, kind, now, a.free - 1);
    SecondWritten(a, f, kind, text, now, a.free - 2);
    UnlinkFailsHalfway(a, name, kind, now, free);
    FourCalls(a, x, y, z, u);
  }

  lemma TextFits(bs: nat, name: Text)
    requires BlockSizeOk(bs) && |name| + 2 <= bs
    ensures var len := |Shorts(PrintEntry(Entry(name, 1)), bs)|; A.Cost(bs, len) <= 6 && len <= MaxFileSize(bs)
  {
    ShortEntry(name);
    FiveBlocks(bs, |Shorts(PrintEntry(Entry(name, 1)), bs)|);
    hide A.Cost, MaxFileSize;
  }

  lemma FiveBlocks(bs: nat, len: nat)
    requires BlockSizeOk(bs) && len <= 5 * bs
    ensures A.Cost(bs, len) <= 6 && len <= MaxFileSize(bs)
  {
    FB.BlockStart(len, bs, 5);
    FB.BlockLimit(len, bs);
  }

  lemma UnlinkFailsHalfway(a: A.Abs, name: Text, kind: Kind, now: u64, free: nat)
    requires D.SizesOk(a) && 4 <= a.maxInodes && free <= 14 && CleanName(name) && name != [] && |name| + 2 <= a.bs
    ensures var text := Shorts(PrintEntry(Entry(name, 1)), a.bs);
      var d := TwoFiles(a, A.AFile(Regular, [], now), A.AFile(kind, text, now), free);
      && D.SizesOk(d)
      && var (b, o) := Step(d, Unlink(2, name, now));
      && o == Nothing(Err(OutOfResource)) && b.files == map[1 := A.AFile(kind, text, now)]
      && D.Lookup(b, 2, name) == Ok(1) && A.ReadFile(b, 1) == Err(InvalidArg)
  {
    var text := Shorts(PrintEntry(Entry(name, 1)), a.bs);
    var d := TwoFiles(a, A.AFile(Regular, [], now), A.AFile(kind, text, now), free);
    SecondText(d, kind, text, now);
    hide *;
    SizesKept(a, d);
    TextGrows(Entry(name, 1), a.bs);
    TextFits(a.bs, name);
    TwentyTwoBlocks(a.bs, |RmFromDirectory(text, name)|);
    FoundIn(d, name, text);
    EntryMustStay(d, name, text);
    GoneHalfway(d, name, kind, text, now);
  }

  lemma ShortEntry(name: Text)
    ensures |PrintEntry(Entry(name, 1))| == |name| + 2
  {
    assert Digits(1) == [ZERO + 1];
  }

  lemma SizesKept(a: A.Abs, d: A.Abs)
    requires D.SizesOk(a) && d.bs == a.bs && d.maxInodes == a.maxInodes
    ensures D.SizesOk(d) && BlockSizeOk(d.bs)
  {
  }

  lemma GoneHalfway(d: A.Abs, name: Text, kind: Kind, text: Text, now: u64)
    requires D.SizesOk(d) && 4 <= d.maxInodes
    requires d.files == map[0 := A.AFile(Regular, [], now), 1 := A.AFile(kind, text, now)]
    requires D.FindEntry(Parse(text), name) == Some(1) && D.Lookup(d, 2, name) == Ok(1)
    requires RemovesTarget(d, 2, name) && !EntryGoes(d, 2, name) && UnlinkError(d, 2, name) == OutOfResource
    ensures var (b, o) := Step(d, Unlink(2, name, now));
      && o == Nothing(Err(OutOfResource)) && b.files == map[1 := A.AFile(kind, text, now)]
      && D.Lookup(b, 2, name) == Ok(1) && A.ReadFile(b, 1) == Err(InvalidArg)
  {
    hide *;
    UnlinkExact(d, 2, name, now);
    UnlinkStep(d, name, now);
    var b := D.Unlink(d, 2, name, now).0;
    assert d.files - {0} == map[1 := A.AFile(kind, text, now)];
    SecondText(b, kind, text, now);
    FoundIn(b, name, text);
  }

  lemma UnlinkStep(d: A.Abs, name: Text, now: u64)
    requires D.SizesOk(d)
    ensures var (b, r) := D.Unlink(d, 2, name, now);
      Step(d, Unlink(2, name, now)) == (b, Nothing(r)) && b.maxInodes == d.maxInodes
  {
    StepSizes(d, Unlink(2, name, now));
    hide D.Unlink;
  }

  lemma SecondText(a: A.Abs, kind: Kind, text: Text, now: u64)
    requires 4 <= a.maxInodes && 1 in a.files && a.files[1] == A.AFile(kind, text, now)
    ensures A.ReadFile(a, 2) == Ok(text) && (0 !in a.files ==> A.ReadFile(a, 1) == Err(InvalidArg))
    ensures 0 in a.files ==> A.ReadFile(a, 1) == Ok(a.files[0].content) && A.GetKind(a, 1) == Ok(a.files[0].kind)
  {
  }

  /** The file can go, but its entry cannot. */
  lemma EntryMustStay(d: A.Abs, name: Text, text: Text)
    requires D.SizesOk(d) && d.free <= 14 && D.Lookup(d, 2, name) == Ok(1) && A.ReadFile(d, 2) == Ok(text)
    requires A.ReadFile(d, 1) == Ok([]) && A.GetKind(d, 1) == Ok(Regular)
    requires A.Cost(d.bs, |text|) <= 6 && A.Cost(d.bs, |RmFromDirectory(text, name)|) >= 22
    ensures RemovesTarget(d, 2, name) && !EntryGoes(d, 2, name) && UnlinkError(d, 2, name) == OutOfResource
  {
    EmptyCost(d.bs);
    hide D.Lookup, A.ReadFile, A.GetKind, A.Cost, RmFromDirectory, MaxFileSize, Direct;
  }

  lemma FoundIn(a: A.Abs, name: Text, text: Text)
    requires A.ReadFile(a, 2) == Ok(text) && D.FindEntry(Parse(text), name) == Some(1)
    ensures D.Lookup(a, 2, name) == Ok(1)
  {
    hide Parse, A.ReadFile, D.FindEntry;
  }

  lemma TwentyTwoBlocks(bs: nat, len: nat)
    requires BlockSizeOk(bs) && len >= 22 * bs - 1
    ensures A.Cost(bs, len) >= 22
  {
    FB.BlockStart(len, bs, 21);
    hide CeilDiv;
  }
}
