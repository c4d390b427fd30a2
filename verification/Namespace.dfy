/** Names: what directories list, as long as they are changed by making and unlinking entries only. */
module Namespace {
  import opened Bytes
  import opened Results
  import opened Bitmaps
  import opened Inodes
  import opened DirectoryText
  import opened EntryLists
  import opened AbstractRuns
  import opened Outcomes
  import C = Accounting
  import A = AbstractFs
  import D = AbstractDirs

  // ---- Directories ----

  /** The entries of each directory. */
  function Dirs(a: A.Abs): map<nat, seq<Entry>> {
    map r | r in a.files && a.files[r].kind == Directory :: Parse(a.files[r].content)
  }

  /** Every directory has unique names and unique, live ids, and no id stands in two directories. */
  ghost predicate TidyDirs(dirs: map<nat, seq<Entry>>, files: map<nat, A.AFile>) {
    && (forall r | r in dirs :: Distinct(dirs[r]))
    && (forall r | r in dirs :: forall id | id in Ids(dirs[r]) :: id > 0 && id - 1 in files)
    && forall r, q | r in dirs && q in dirs && r != q :: Ids(dirs[r]) !! Ids(dirs[q])
  }

  /** The text of every directory is that of its entries, as it is printed. */
  ghost predicate Printed(a: A.Abs) {
    forall r | r in a.files && a.files[r].kind == Directory :: a.files[r].content == Print(Parse(a.files[r].content))
  }

  /** The namespace invariant. */
  ghost predicate Tidy(a: A.Abs) {
    Proper(a) && Printed(a) && TidyDirs(Dirs(a), a.files)
  }

  /** Some directory has an entry with this id. */
  ghost predicate Named(a: A.Abs, id: nat) {
    exists r :: r in Dirs(a) && id in Ids(Dirs(a)[r])
  }

  predicate IsDirectory(a: A.Abs, id: nat) {
    Live(a, id) && a.files[id - 1].kind == Directory
  }

  /** A directory, other than the file itself, has an entry with this id. */
  ghost predicate NamedElsewhere(a: A.Abs, id: nat) {
    exists r :: r in Dirs(a) && r + 1 != id && id in Ids(Dirs(a)[r])
  }

  // ---- Which calls keep the namespace tidy ----

  /** Directory `p` can list `l`, as it does, and then `m`: no name and no id comes twice, and each id of `m` is
      that of a file and stands in no other directory. */
  ghost predicate CanList(dirs: map<nat, seq<Entry>>, live: set<nat>, p: nat, l: seq<Entry>, m: seq<Entry>) {
    && Distinct(l + m)
    && forall id | id in Ids(m) :: id > 0 && id - 1 in live && forall q | q in dirs && q != p :: id !in Ids(dirs[q])
  }

  /** If `text` gets written to a directory, it is printed as it reads, and can be listed. */
  ghost predicate TextKeeps(a: A.Abs, id: nat, text: Text)
    requires BlockSizeOk(a.bs)
  {
    IsDirectory(a, id) && Writes(a, id, text) ==>
      Print(Parse(text)) == text && CanList(Dirs(a), a.files.Keys, id - 1, [], Parse(text))
  }

  /** What the file lists before an entry is made. */
  function Listed(a: A.Abs, id: nat): seq<Entry> {
    if IsDirectory(a, id) then Parse(a.files[id - 1].content) else []
  }

  /** The entries that a new one holds: itself, or others, if its name has slashes or colons. */
  function NewEntries(a: A.Abs, name: Text): seq<Entry>
    requires D.SizesOk(a) && Creatable(a)
  {
    Parse(PrintEntry(Entry(name, NewId(a))))
  }

  /** The entry gets written, and to a directory. */
  predicate EntersDirectory(a: A.Abs, id: nat, name: Text, kind: Kind)
    requires D.SizesOk(a)
  {
    && MakesFile(a, id, name) && EntryFits(a, id, name)
    && (IsDirectory(a, id) || (id == NewId(a) && kind == Directory))
  }

  /** If an entry gets written to a directory, it is printed as it reads, and what it holds can be listed. */
  ghost predicate EntryKeeps(a: A.Abs, id: nat, name: Text, kind: Kind)
    requires D.SizesOk(a)
  {
    EntersDirectory(a, id, name, kind) ==>
      && Print(NewEntries(a, name)) == PrintEntry(Entry(name, NewId(a)))
      && CanList(Dirs(a), a.files.Keys + {NewId(a) - 1}, id - 1, Listed(a, id), NewEntries(a, name))
  }

  /** Known before the call: whether it will keep the namespace tidy. Calls that name no file in it always do. */
  ghost predicate KeepsTidy(a: A.Abs, op: Op)
    requires D.SizesOk(a)
  {
    match op
    case RemoveFile(id) => Removable(a, id) ==> !NamedElsewhere(a, id)
    case MkHelper(id, name, kind, _) => EntryKeeps(a, id, name, kind)
    case Unlink(id, name, _) =>
      RemovesTarget(a, id, name) && !IsDirectory(a, id) ==> !NamedElsewhere(a, D.Lookup(a, id, name).value)
    case _ => Written(a, op).Some? ==> TextKeeps(a, op.id, Written(a, op).value)
  }

  /** A simple discipline under which every call does: directories are changed only by making and unlinking
      entries, with names the text can carry, and a file that has an entry is removed only with it. */
  ghost predicate Disciplined(a: A.Abs, op: Op) {
    match op
    case WriteFile(id, _, _) => !IsDirectory(a, id)
    case WriteAt(id, _, _, _) => !IsDirectory(a, id)
    case Resize(id, _, _) => !IsDirectory(a, id)
    case RemoveFile(id) => !Named(a, id)
    case MkHelper(_, name, _, _) => CleanName(name)
    case Unlink(id, _, _) => Live(a, id) ==> IsDirectory(a, id)
    case _ => true
  }

  // ---- Changes ----

  lemma TidyGrown(dirs: map<nat, seq<Entry>>, files: map<nat, A.AFile>, more: map<nat, A.AFile>, r: nat)
    requires TidyDirs(dirs, files) && files.Keys <= more.Keys
    ensures TidyDirs(dirs, more) && TidyDirs(dirs[r := []], more)
  {
  }

  lemma TidyLeft(dirs: map<nat, seq<Entry>>, files: map<nat, A.AFile>, r: nat)
    requires TidyDirs(dirs, files)
    ensures TidyDirs(dirs - {r}, files - {r}) <==> forall q | q in dirs && q != r :: r + 1 !in Ids(dirs[q])
  {
    if TidyDirs(dirs - {r}, files - {r}) {
      forall q | q in dirs && q != r ensures r + 1 !in Ids(dirs[q]) { assert q in dirs - {r}; }
    }
  }

  /** Listing more in one directory. */
  lemma TidyListed(
    dirs: map<nat, seq<Entry>>, files: map<nat, A.AFile>, more: map<nat, A.AFile>, p: nat, l: seq<Entry>, m: seq<Entry>)
    requires TidyDirs(dirs, files) && files.Keys <= more.Keys && (l == [] || (p in dirs && dirs[p] == l))
    ensures TidyDirs(dirs[p := l + m], more) <==> CanList(dirs, more.Keys, p, l, m)
  {
    ConcatIds(l, m);
    EmptyList();
    hide Ids, Distinct;
    var after := dirs[p := l + m];
    assert after[p] == l + m && forall q | q in dirs && q != p :: after[q] == dirs[q];
    if TidyDirs(after, more) {
      forall id | id in Ids(m)
        ensures id > 0 && id - 1 in more.Keys && forall q | q in dirs && q != p :: id !in Ids(dirs[q])
      {
        assert id in Ids(after[p]);
        forall q | q in dirs && q != p ensures id !in Ids(dirs[q]) {
          assert q in after && Ids(after[q]) !! Ids(after[p]);
        }
      }
    }
    if CanList(dirs, more.Keys, p, l, m) {
      forall q | q in after && q != p ensures Ids(after[q]) !! Ids(after[p]) {
        assert Ids(dirs[q]) !! Ids(l) && Ids(dirs[q]) !! Ids(m);
      }
    }
  }

  lemma PrintedKept(a: A.Abs, c: Change)
    requires Printed(a) && Allowed(a, c) && (c.Stores? ==> !IsDirectory(a, c.r + 1))
    ensures Printed(Apply(a, c))
  {
  }

  /** New files, lost blocks and writes to other files leave the lists of the directories alone. */
  lemma TidyKept(a: A.Abs, c: Change)
    requires Tidy(a) && Allowed(a, c) && !c.Leaves?
    requires c.Stores? ==> !IsDirectory(a, c.r + 1)
    ensures Tidy(Apply(a, c))
  {
    hide *;
    TidyParts(a);
    ChangeProper(a, c);
    PrintedKept(a, c);
    DirsAfter(a, c);
    FilesAfter(a, c);
    var b := Apply(a, c);
    TidyGrown(Dirs(a), a.files, b.files, if c.Loses? then 0 else c.r);
    TidyAgain(b);
  }

  /** A file can go exactly if no other directory names it. */
  lemma TidyRemoved(a: A.Abs, c: Change)
    requires Tidy(a) && Allowed(a, c) && c.Leaves?
    ensures Tidy(Apply(a, c)) <==> !NamedElsewhere(a, c.r + 1)
  {
    hide *;
    TidyParts(a);
    ChangeProper(a, c);
    PrintedKept(a, c);
    DirsAfter(a, c);
    FilesAfter(a, c);
    var b := Apply(a, c);
    TidyLeft(Dirs(a), a.files, c.r);
    if Tidy(b) { TidyParts(b); }
    ElsewhereIn(a, c.r);
    if TidyDirs(Dirs(b), b.files) { TidyAgain(b); }
  }

  lemma ElsewhereIn(a: A.Abs, r: nat)
    ensures NamedElsewhere(a, r + 1) <==> !forall q | q in Dirs(a) && q != r :: r + 1 !in Ids(Dirs(a)[q])
  {
    hide Dirs, Ids;
  }

  /** A write to a file that is no directory makes no difference. */
  lemma TidyElsewhere(a: A.Abs, id: nat, text: seq<byte>, now: u64)
    requires Proper(a) && BlockSizeOk(a.bs) && (A.WriteFile(a, id, text, now).1.Ok? ==> !IsDirectory(a, id))
    ensures Tidy(A.WriteFile(a, id, text, now).0) <==> Tidy(a)
  {
    hide *;
    WriteApplies(a, id, text, now);
    var c := WriteChange(a, id, text, now);
    WriteElsewhere(a, id, text, now);
    ChangeProper(a, c);
    DirsAfter(a, c);
    SameNames(a, c);
    SameTidy(a, Apply(a, c));
  }

  lemma SameNames(a: A.Abs, c: Change)
    requires Allowed(a, c) && (c.Loses? || (c.Stores? && !IsDirectory(a, c.r + 1)))
    ensures Apply(a, c).files.Keys == a.files.Keys && (Printed(Apply(a, c)) <==> Printed(a))
  {
    hide Print, Parse, A.Cost, MaxFileSize;
    var b := Apply(a, c);
    assert a.files.Keys == b.files.Keys;
    assert forall r | r in a.files && (a.files[r].kind == Directory || b.files[r].kind == Directory) ::
      a.files[r] == b.files[r];
  }

  lemma SameTidy(a: A.Abs, b: A.Abs)
    requires Proper(a) && Proper(b) && (Printed(a) <==> Printed(b))
    requires Dirs(a) == Dirs(b) && a.files.Keys == b.files.Keys
    ensures Tidy(a) <==> Tidy(b)
  {
    hide Proper, Printed, Dirs;
  }

  lemma FilesAfter(a: A.Abs, c: Change)
    requires Allowed(a, c)
    ensures c.Leaves? ==> Apply(a, c).files == a.files - {c.r}
    ensures !c.Leaves? ==> a.files.Keys <= Apply(a, c).files.Keys
  {
  }

  lemma TidyAgain(a: A.Abs)
    requires Proper(a) && Printed(a) && TidyDirs(Dirs(a), a.files)
    ensures Tidy(a)
  {
  }

  lemma EmptyList()
    ensures Distinct([]) && Ids([]) == {}
  {
  }

  lemma DirsAfter(a: A.Abs, c: Change)
    requires Allowed(a, c) && (c.Stores? ==> !IsDirectory(a, c.r + 1))
    ensures Dirs(Apply(a, c)) == match c
      case Enters(r, f) => if f.kind == Directory then Dirs(a)[r := []] else Dirs(a)
      case Leaves(r) => Dirs(a) - {r}
      case _ => Dirs(a)
  {
  }

  /** What reading and searching a directory gives. */
  lemma ListOf(a: A.Abs, id: nat)
    requires Tidy(a) && IsDirectory(a, id)
    ensures var l := Dirs(a)[id - 1];
      && a.files[id - 1].content == Print(l) && Parse(Print(l)) == l && CleanNames(l) && Distinct(l)
      && (id < a.maxInodes - 1 ==> A.ReadFile(a, id) == Ok(Print(l)))
      && (id >= a.maxInodes - 1 ==> A.ReadFile(a, id) == Err(InvalidArg))
  {
    ParsedNamesClean(a.files[id - 1].content);
    hide A.Cost, MaxFileSize, Parse, Print, Ids, Distinct, CleanNames;
  }

  lemma DirsStored(a: A.Abs, b: A.Abs, p: nat, f: A.AFile)
    requires b.files == a.files[p := f] && f.kind == Directory
    ensures Dirs(b) == Dirs(a)[p := Parse(f.content)]
  {
  }

  lemma PrintedStored(a: A.Abs, b: A.Abs, p: nat, f: A.AFile)
    requires b.files == a.files[p := f] && f.kind == Directory && Printed(a)
    ensures Printed(b) <==> f.content == Print(Parse(f.content))
  {
    if Printed(b) { assert p in b.files && b.files[p] == f; }
  }

  /** Giving a directory a new text. */
  lemma TextStored(a: A.Abs, id: nat, text: Text, now: u64, b: A.Abs)
    requires Tidy(a) && Proper(b) && IsDirectory(a, id) && b.files == a.files[id - 1 := A.AFile(Directory, text, now)]
    ensures Dirs(b) == Dirs(a)[id - 1 := Parse(text)]
    ensures Tidy(b) <==> Print(Parse(text)) == text && CanList(Dirs(a), a.files.Keys, id - 1, [], Parse(text))
  {
    hide *;
    InDirs(a, id);
    var f := A.AFile(Directory, text, now);
    SameNumbers(a, b, id, f);
    TidyParts(a);
    DirsStored(a, b, id - 1, f);
    PrintedStored(a, b, id - 1, f);
    TidyListed(Dirs(a), a.files, b.files, id - 1, [], Parse(text));
    assert [] + Parse(text) == Parse(text);
    if Tidy(b) { TidyParts(b); }
    if Printed(b) && TidyDirs(Dirs(b), b.files) { TidyAgain(b); }
  }

  lemma SameNumbers(a: A.Abs, b: A.Abs, id: nat, f: A.AFile)
    requires IsDirectory(a, id) && b.files == a.files[id - 1 := f]
    ensures b.files.Keys == a.files.Keys
  {
  }

  /** A write keeps the namespace tidy exactly if its text does, should it get there. */
  lemma WriteTidy(a: A.Abs, id: nat, text: Text, now: u64)
    requires Tidy(a)
    ensures BlockSizeOk(a.bs) && (Tidy(A.WriteFile(a, id, text, now).0) <==> TextKeeps(a, id, text))
  {
    hide *;
    TidyParts(a);
    BlockSizes(a);
    WritesExactly(a, id, text, now);
    if IsDirectory(a, id) && Writes(a, id, text) {
      WrittenDirectory(a, id, text, now);
      TextStored(a, id, text, now, A.WriteFile(a, id, text, now).0);
    } else {
      TidyElsewhere(a, id, text, now);
    }
    TextKeepsIf(a, id, text);
  }

  lemma WritesExactly(a: A.Abs, id: nat, text: Text, now: u64)
    requires BlockSizeOk(a.bs)
    ensures A.WriteFile(a, id, text, now).1.Ok? <==> Writes(a, id, text)
  {
    if A.ReadFile(a, id).Ok? { WriteOutcome(a, id, text, now); }
  }

  lemma TextKeepsIf(a: A.Abs, id: nat, text: Text)
    requires BlockSizeOk(a.bs)
    ensures IsDirectory(a, id) ==> id > 0
    ensures TextKeeps(a, id, text) <==> (IsDirectory(a, id) && Writes(a, id, text) ==>
      Print(Parse(text)) == text && CanList(Dirs(a), a.files.Keys, id - 1, [], Parse(text)))
  {
  }

  /** Giving a directory a list that is known to be fine, even if it was not before. */
  lemma ListStored(a: A.Abs, id: nat, l: seq<Entry>, now: u64, b: A.Abs)
    requires IsDirectory(a, id) && b.files == a.files[id - 1 := A.AFile(Directory, Print(l), now)]
    requires Proper(b) && Printed(a) && CleanNames(l) && TidyDirs(Dirs(a)[id - 1 := l], a.files)
    ensures Tidy(b) && Dirs(b) == Dirs(a)[id - 1 := l]
  {
    hide *;
    InDirs(a, id);
    var f := A.AFile(Directory, Print(l), now);
    SameNumbers(a, b, id, f);
    ParsePrint(l);
    DirsStored(a, b, id - 1, f);
    PrintedStored(a, b, id - 1, f);
    TidyGrown(Dirs(b), a.files, b.files, 0);
    TidyAgain(b);
  }

  /** A successful write to a directory. */
  lemma WrittenDirectory(a: A.Abs, id: nat, content: seq<byte>, now: u64)
    requires Proper(a) && IsDirectory(a, id) && A.WriteFile(a, id, content, now).1.Ok?
    ensures var b := A.WriteFile(a, id, content, now).0;
      && Proper(b) && b.files == a.files[id - 1 := A.AFile(Directory, content, now)]
      && b.bs == a.bs && b.maxInodes == a.maxInodes
      && b.free == a.free + A.Cost(a.bs, |a.files[id - 1].content|) - A.Cost(a.bs, |content|)
  {
    WriteApplies(a, id, content, now);
    ChangeProper(a, Stores(id - 1, A.AFile(Directory, content, now)));
    hide A.Cost, MaxFileSize, Proper;
  }

  // ---- Unlinking ----

  lemma TidyWithout(dirs: map<nat, seq<Entry>>, files: map<nat, A.AFile>, p: nat, name: Text, t: nat)
    requires TidyDirs(dirs, files) && p in dirs && D.FindEntry(dirs[p], name) == Some(t) && t > 0
    ensures TidyDirs(dirs[p := Without(dirs[p], name)], files - {t - 1})
  {
    WithoutIds(dirs[p], name);
    FoundIsNamed(dirs[p], name);
    hide Distinct, Ids, Without, D.FindEntry;
  }

  /** The state after the file was removed, with its entry still there. */
  lemma TargetRemoved(a: A.Abs, parent: nat, name: Text, t: nat) returns (m: A.Abs)
    requires Tidy(a) && IsDirectory(a, parent) && parent < a.maxInodes - 1
    requires D.FindEntry(Dirs(a)[parent - 1], name) == Some(t) && A.RemoveFile(a, t).1.Ok? && !IsDirectory(a, t)
    ensures m == A.RemoveFile(a, t).0 && Proper(m) && Printed(m) && Dirs(m) == Dirs(a)
    ensures t > 0 && m.files == a.files - {t - 1} && m.bs == a.bs && m.maxInodes == a.maxInodes
    ensures IsDirectory(m, parent) && A.ReadFile(m, parent) == A.ReadFile(a, parent)
    ensures parent - 1 in m.files && m.files[parent - 1] == a.files[parent - 1]
    ensures m.free == a.free + 1 + A.Cost(a.bs, |a.files[t - 1].content|)
    ensures Live(a, t)
  {
    hide A.Cost, MaxFileSize, Parse, Print, Proper, Printed, Dirs, D.FindEntry, A.RemoveFile, Direct;
    BlockSizes(a);
    RemoveApplies(a, t);
    m := A.RemoveFile(a, t).0;
    var c := Leaves(t - 1);
    ChangeProper(a, c);
    PrintedKept(a, c);
    DirsAfter(a, c);
    NotADirectory(a, t - 1);
    assert Dirs(a) - {t - 1} == Dirs(a);
  }

  lemma BlockSizes(a: A.Abs)
    requires Proper(a)
    ensures BlockSizeOk(a.bs)
  {
  }

  lemma NotADirectory(a: A.Abs, r: nat)
    requires !IsDirectory(a, r + 1)
    ensures r !in Dirs(a)
  {
  }

  /** The text without an entry is shorter. */
  lemma ShorterText(l: seq<Entry>, name: Text)
    requires CleanNames(l) && Parse(Print(l)) == l && D.FindEntry(l, name).Some?
    ensures RmFromDirectory(Print(l), name) == Print(Without(l, name)) && CleanNames(Without(l, name))
    ensures |RmFromDirectory(Print(l), name)| < |Print(l)|
  {
    var i := FindEntryAt(l, name);
    hide Parse, Print, CleanNames, D.FindEntry, Without;
    RmShrinks(l, name);
    WithoutClean(l, name);
  }

  /** Writing a shorter list always fits. */
  lemma ShorterListWritten(m: A.Abs, id: nat, l: seq<Entry>, now: u64) returns (b: A.Abs)
    requires Proper(m) && Printed(m) && IsDirectory(m, id) && id < m.maxInodes - 1
    requires |Print(l)| < |m.files[id - 1].content| && CleanNames(l) && TidyDirs(Dirs(m)[id - 1 := l], m.files)
    ensures D.SizesOk(m) && A.WriteFile(m, id, Print(l), now) == (b, Ok(()))
    ensures Tidy(b) && Dirs(b) == Dirs(m)[id - 1 := l]
    ensures b.files == m.files[id - 1 := A.AFile(Directory, Print(l), now)]
    ensures b.bs == m.bs && b.maxInodes == m.maxInodes
    ensures b.free == m.free + A.Cost(m.bs, |m.files[id - 1].content|) - A.Cost(m.bs, |Print(l)|)
  {
    hide Printed, TidyDirs, Dirs, A.WriteFile, A.Cost, MaxFileSize, Parse, Print, CleanNames;
    C.NoGrowthSucceeds(m, id, Print(l), now);
    b := A.WriteFile(m, id, Print(l), now).0;
    WrittenDirectory(m, id, Print(l), now);
    ListStored(m, id, l, now, b);
  }

  /** The entry of a removed file goes too. */
  lemma EntryRemoved(a: A.Abs, m: A.Abs, parent: nat, name: Text, t: nat, now: u64) returns (b: A.Abs)
    requires Tidy(a) && IsDirectory(a, parent) && parent < a.maxInodes - 1
    requires D.FindEntry(Dirs(a)[parent - 1], name) == Some(t) && t > 0
    requires Proper(m) && Printed(m) && Dirs(m) == Dirs(a) && m.files == a.files - {t - 1} && IsDirectory(m, parent)
    requires m.maxInodes == a.maxInodes && m.files[parent - 1] == a.files[parent - 1]
    ensures var text, l := RmFromDirectory(a.files[parent - 1].content, name), Without(Dirs(a)[parent - 1], name);
      && D.SizesOk(m) && A.WriteFile(m, parent, text, now) == (b, Ok(()))
      && Tidy(b) && Dirs(b) == Dirs(a)[parent - 1 := l]
      && b.files == m.files[parent - 1 := A.AFile(Directory, text, now)]
      && b.bs == m.bs && b.maxInodes == m.maxInodes
      && b.free == m.free + A.Cost(m.bs, |a.files[parent - 1].content|) - A.Cost(m.bs, |text|)
  {
    hide *;
    InDirs(a, parent);
    TidyParts(a);
    ListOf(a, parent);
    var l := Dirs(a)[parent - 1];
    ShorterText(l, name);
    TidyWithout(Dirs(a), a.files, parent - 1, name, t);
    b := ShorterListWritten(m, parent, Without(l, name), now);
  }

  lemma TidyParts(a: A.Abs)
    requires Tidy(a)
    ensures Proper(a) && Printed(a) && TidyDirs(Dirs(a), a.files)
  {
  }

  lemma InDirs(a: A.Abs, id: nat)
    requires IsDirectory(a, id)
    ensures id > 0 && id - 1 in Dirs(a)
  {
  }

  /** The file and its entry are gone, and nothing else is; the blocks of the file are free. */
  ghost predicate Unlinked(a: A.Abs, parent: nat, name: Text, t: nat, now: u64, b: A.Abs) {
    && IsDirectory(a, parent) && parent - 1 in Dirs(a) && BlockSizeOk(a.bs) && Live(a, t) && t != parent
    && var l := Without(Dirs(a)[parent - 1], name);
    && b.bs == a.bs && b.maxInodes == a.maxInodes
    && b.files == (a.files - {t - 1})[parent - 1 := A.AFile(Directory, Print(l), now)]
    && Dirs(b) == Dirs(a)[parent - 1 := l]
    && b.free == a.free + 1 + A.Cost(a.bs, |a.files[t - 1].content|)
                 + A.Cost(a.bs, |a.files[parent - 1].content|) - A.Cost(a.bs, |Print(l)|)
  }

  /** A name that is found stands in a directory and names a live file. */
  lemma FoundEntry(a: A.Abs, parent: nat, name: Text) returns (t: nat)
    requires Tidy(a) && (Live(a, parent) ==> IsDirectory(a, parent)) && D.Lookup(a, parent, name).Ok?
    ensures IsDirectory(a, parent) && parent < a.maxInodes - 1 && parent - 1 in Dirs(a)
    ensures t > 0 && D.Lookup(a, parent, name) == Ok(t) && D.FindEntry(Dirs(a)[parent - 1], name) == Some(t)
    ensures Live(a, t)
  {
    t := D.Lookup(a, parent, name).value;
    FoundIsNamed(Dirs(a)[parent - 1], name);
    hide Distinct, Ids, Print, Parse, D.FindEntry, Printed, Proper;
  }

  /** Unlinking removes the file and its entry, or changes nothing: it succeeds exactly if the name is there
      and names a served file, not a directory, whose data fits the direct slots. */
  lemma UnlinkAllOrNothing(a: A.Abs, parent: nat, name: Text, now: u64)
    requires Tidy(a) && (Live(a, parent) ==> IsDirectory(a, parent))
    ensures D.SizesOk(a)
    ensures var (b, r) := D.Unlink(a, parent, name, now);
      && Tidy(b)
      && (r.Ok? <==> RemovesTarget(a, parent, name))
      && (r.Err? ==> b == a)
      && (r.Ok? ==> Unlinked(a, parent, name, D.Lookup(a, parent, name).value, now, b))
  {
    hide *;
    TidyParts(a);
    ProperSizes(a);
    BlockSizes(a);
    UnlinkExact(a, parent, name, now);
    if RemovesTarget(a, parent, name) {
      TargetFound(a, parent, name);
      var t := FoundEntry(a, parent, name);
      var b := UnlinkRuns(a, parent, name, now, t);
    }
  }

  lemma TargetFound(a: A.Abs, parent: nat, name: Text)
    requires BlockSizeOk(a.bs) && RemovesTarget(a, parent, name)
    ensures D.Lookup(a, parent, name).Ok?
    ensures var t := D.Lookup(a, parent, name).value; !IsDirectory(a, t) && (IsDirectory(a, parent) ==> t != parent)
  {
    hide D.Lookup, Direct;
  }

  lemma UnlinkRuns(a: A.Abs, parent: nat, name: Text, now: u64, t: nat) returns (b: A.Abs)
    requires Tidy(a) && D.SizesOk(a) && BlockSizeOk(a.bs) && RemovesTarget(a, parent, name)
    requires IsDirectory(a, parent) && parent < a.maxInodes - 1 && parent - 1 in Dirs(a)
    requires D.Lookup(a, parent, name) == Ok(t) && D.FindEntry(Dirs(a)[parent - 1], name) == Some(t)
    ensures D.Unlink(a, parent, name, now) == (b, Ok(()))
    ensures Tidy(b) && Unlinked(a, parent, name, t, now, b)
  {
    hide *;
    TargetFound(a, parent, name);
    UnlinkWrites(a, parent, name, now);
    ListOf(a, parent);
    var m := TargetRemoved(a, parent, name, t);
    b := EntryRemoved(a, m, parent, name, t, now);
    UnlinkedFacts(a, parent, name, t, now, m, b);
  }

  lemma UnlinkedFacts(a: A.Abs, parent: nat, name: Text, t: nat, now: u64, m: A.Abs, b: A.Abs)
    requires Tidy(a) && IsDirectory(a, parent) && parent - 1 in Dirs(a) && Live(a, t) && t != parent
    requires BlockSizeOk(a.bs) && m.files == a.files - {t - 1} && m.bs == a.bs
    requires m.free == a.free + 1 + A.Cost(a.bs, |a.files[t - 1].content|)
    requires b.bs == m.bs && b.maxInodes == a.maxInodes
    requires var text, l := RmFromDirectory(a.files[parent - 1].content, name), Without(Dirs(a)[parent - 1], name);
      && b.files == m.files[parent - 1 := A.AFile(Directory, text, now)] && Dirs(b) == Dirs(a)[parent - 1 := l]
      && b.free == m.free + A.Cost(m.bs, |a.files[parent - 1].content|) - A.Cost(m.bs, |text|)
    ensures Unlinked(a, parent, name, t, now, b)
  {
    ListOf(a, parent);
    hide Tidy, Dirs, Print, Parse, Without, A.Cost;
  }

  /** Looking a name up in a directory finds its entry. */
  lemma DirectoryLookup(a: A.Abs, id: nat, name: Text)
    requires Tidy(a) && IsDirectory(a, id) && id < a.maxInodes - 1
    ensures id - 1 in Dirs(a)
    ensures D.Lookup(a, id, name) ==
      match D.FindEntry(Dirs(a)[id - 1], name) case Some(i) => Ok(i) case None => Err(NotExist)
  {
  }

  /** After unlinking, the name is gone, every other name is found as before, the file is dead, and every
      file but it and the directory is as it was. */
  lemma UnlinkLookups(a: A.Abs, parent: nat, name: Text, now: u64, n: Text, q: nat)
    requires Tidy(a) && IsDirectory(a, parent) && BlockSizeOk(a.bs) && RemovesTarget(a, parent, name)
    ensures D.SizesOk(a) && D.Lookup(a, parent, name).Ok?
    ensures var b, t := D.Unlink(a, parent, name, now).0, D.Lookup(a, parent, name).value;
      && D.Lookup(b, parent, n) == (if n == name then Err(NotExist) else D.Lookup(a, parent, n))
      && A.ReadFile(b, t) == Err(InvalidArg) && !Named(b, t)
      && (q != t && q != parent ==> A.ReadFile(b, q) == A.ReadFile(a, q) && D.Lookup(b, q, n) == D.Lookup(a, q, n))
  {
    UnlinkAllOrNothing(a, parent, name, now);
    var b, t := D.Unlink(a, parent, name, now).0, D.Lookup(a, parent, name).value;
    UnlinkedFiles(a, parent, name, t, now, b, q);
    hide *;
    var u := FoundEntry(a, parent, name);
    NotLiveNotNamed(b, t);
    DirectoryLookup(a, parent, n);
    DirectoryLookup(b, parent, n);
    FindWithout(Dirs(a)[parent - 1], name, n);
    if A.ReadFile(b, q) == A.ReadFile(a, q) { SameLookup(a, b, q, n); }
  }

  lemma SameLookup(a: A.Abs, b: A.Abs, q: nat, n: Text)
    requires A.ReadFile(b, q) == A.ReadFile(a, q)
    ensures D.Lookup(b, q, n) == D.Lookup(a, q, n)
  {
  }

  lemma UnlinkedFiles(a: A.Abs, parent: nat, name: Text, t: nat, now: u64, b: A.Abs, q: nat)
    requires Tidy(a) && Unlinked(a, parent, name, t, now, b)
    requires D.Lookup(a, parent, name) == Ok(t) && A.GetKind(a, t).Ok?
    ensures A.ReadFile(b, t) == Err(InvalidArg) && !Live(b, t) && IsDirectory(b, parent) && b.maxInodes == a.maxInodes
    ensures Dirs(b)[parent - 1] == Without(Dirs(a)[parent - 1], name)
    ensures q != t && q != parent ==> A.ReadFile(b, q) == A.ReadFile(a, q)
  {
    hide Tidy, Dirs, Print, Parse, Without, A.Cost, D.Lookup;
  }

  /** Entries name live files only. */
  lemma NotLiveNotNamed(a: A.Abs, id: nat)
    requires Tidy(a) && !Live(a, id)
    ensures !Named(a, id)
  {
  }

  // ---- Making entries ----

  /** Making an entry keeps the namespace tidy exactly if what it holds can be listed, should it be written to
      a directory. All failing calls do, and so do those in files that are no directories. */
  lemma MkHelperTidy(a: A.Abs, id: nat, name: Text, kind: Kind, now: u64)
    requires Tidy(a)
    ensures D.SizesOk(a) && (Tidy(D.MkHelper(a, id, name, kind, now).0) <==> EntryKeeps(a, id, name, kind))
  {
    hide *;
    TidyParts(a);
    ProperSizes(a);
    BlockSizes(a);
    FileMade(a, id, kind, now);
    MkWrites(a, id, name, kind, now);
    AllocApplies(a, kind, now);
    AllocTidy(a, AllocChange(a, kind, now));
    EntersIf(a, id, name, kind);
    if MakesFile(a, id, name) && EntryFits(a, id, name) { EntryRead(a, id, name); }
    if MakesFile(a, id, name) && ParentText(a, id).Ok? {
      MadeFacts(a, id, name);
      var b := A.AllocInode(a, kind, now).0;
      var text := AppendToDirectory(ParentText(a, id).value, name, NewId(a));
      WriteTidy(b, id, text, now);
      EntryText(a, b, id, name, kind, now, text);
    }
  }

  lemma EntersIf(a: A.Abs, id: nat, name: Text, kind: Kind)
    requires D.SizesOk(a)
    ensures !EntersDirectory(a, id, name, kind) ==> EntryKeeps(a, id, name, kind)
    ensures EntersDirectory(a, id, name, kind) ==> MakesFile(a, id, name) && Creatable(a) && EntryFits(a, id, name)
    ensures MakesFile(a, id, name) ==> Creatable(a)
  {
  }

  lemma MadeFacts(a: A.Abs, id: nat, name: Text)
    requires D.SizesOk(a) && MakesFile(a, id, name)
    ensures Creatable(a) && D.Lookup(a, id, name).Err? && 0 < NewId(a) <= MAX_ID && !Live(a, NewId(a))
  {
    hide D.Lookup;
  }

  lemma AllocTidy(a: A.Abs, c: Change)
    requires Tidy(a) && Allowed(a, c) && (c.Enters? || c.Loses?)
    ensures Tidy(Apply(a, c))
  {
    hide Tidy, Allowed, Apply;
    TidyKept(a, c);
  }

  /** What the text of the new entry does to the directory, told from the state before the call. */
  lemma EntryText(a: A.Abs, b: A.Abs, id: nat, name: Text, kind: Kind, now: u64, text: Text)
    requires Tidy(a) && Tidy(b) && D.SizesOk(a) && BlockSizeOk(b.bs)
    requires MakesFile(a, id, name) && Creatable(a) && NewId(a) <= MAX_ID
    requires b == A.AllocInode(a, kind, now).0 && ParentText(a, id).Ok?
    requires text == AppendToDirectory(ParentText(a, id).value, name, NewId(a))
    ensures TextKeeps(b, id, text) <==> EntryKeeps(a, id, name, kind)
  {
    hide *;
    var newId := NewId(a);
    FileMade(a, id, kind, now);
    EntryRoom(a, b, id, name, kind, text);
    TextKeepsIf(b, id, text);
    EntersIf(a, id, name, kind);
    if IsDirectory(b, id) && EntryFits(a, id, name) {
      InDirs(b, id);
      TidyParts(b);
      DirsMade(a, b, id, kind, now);
      var l, m := Listed(a, id), NewEntries(a, name);
      NewEntriesAre(a, name);
      ListOf(b, id);
      AppendEntries(Print(l), name, newId);
      AppendKeepsPrinted(l, name, newId);
      TidyListed(Dirs(b), b.files, b.files, id - 1, [], l + m);
      TidyListed(Dirs(b), b.files, b.files, id - 1, l, m);
      assert [] + (l + m) == l + m;
      SameListing(Dirs(a), Dirs(b), newId - 1, b.files.Keys, id - 1, l, m);
      EntryKeepsIf(a, id, name, kind);
    }
  }

  /** The entry has the room that its text has after the allocation. */
  lemma EntryRoom(a: A.Abs, b: A.Abs, id: nat, name: Text, kind: Kind, text: Text)
    requires D.SizesOk(a) && MakesFile(a, id, name) && Creatable(a) && b.bs == a.bs && b.free == a.free - 1
    requires ParentText(a, id).Ok? && text == AppendToDirectory(ParentText(a, id).value, name, NewId(a))
    requires A.ReadFile(b, id) == ParentText(a, id)
    requires exists f: A.AFile :: f.kind == kind && b.files == a.files[NewId(a) - 1 := f]
    ensures BlockSizeOk(b.bs) && (Writes(b, id, text) <==> EntryFits(a, id, name))
    ensures IsDirectory(b, id) <==> IsDirectory(a, id) || (id == NewId(a) && kind == Directory)
    ensures EntersDirectory(a, id, name, kind) <==> EntryFits(a, id, name) && IsDirectory(b, id)
  {
    hide Fits, A.ReadFile, A.FirstUnused, ParentText, AppendToDirectory, D.Lookup;
  }

  lemma DirsMade(a: A.Abs, b: A.Abs, id: nat, kind: Kind, now: u64)
    requires D.SizesOk(a) && Creatable(a) && b.files == a.files[NewId(a) - 1 := A.AFile(kind, [], now)]
    requires IsDirectory(b, id)
    ensures Dirs(b) == (if kind == Directory then Dirs(a)[NewId(a) - 1 := []] else Dirs(a)) && NewId(a) - 1 !in Dirs(a)
    ensures id - 1 in Dirs(b) && Dirs(b)[id - 1] == Listed(a, id) && b.files.Keys == a.files.Keys + {NewId(a) - 1}
  {
    EmptyToken();
    hide Parse, A.FirstUnused;
  }

  lemma NewEntriesAre(a: A.Abs, name: Text)
    requires D.SizesOk(a) && Creatable(a)
    ensures NewId(a) <= MAX_ID && NewEntries(a, name) == Parse(PrintEntry(Entry(name, NewId(a))))
  {
  }

  /** A directory without entries stands in no one's way. */
  lemma SameListing(
    dirs: map<nat, seq<Entry>>, after: map<nat, seq<Entry>>, r: nat,
    live: set<nat>, p: nat, l: seq<Entry>, m: seq<Entry>)
    requires r !in dirs && (after == dirs || after == dirs[r := []])
    ensures CanList(after, live, p, l, m) <==> CanList(dirs, live, p, l, m)
  {
    EmptyList();
    hide Distinct, Ids;
    if CanList(after, live, p, l, m) {
      forall id, q | id in Ids(m) && q in dirs && q != p ensures id !in Ids(dirs[q]) {
        assert q in after && after[q] == dirs[q];
      }
    }
  }

  lemma EntryKeepsIf(a: A.Abs, id: nat, name: Text, kind: Kind)
    requires D.SizesOk(a) && EntersDirectory(a, id, name, kind)
    ensures Creatable(a) && id > 0 && NewId(a) <= MAX_ID
    ensures EntryKeeps(a, id, name, kind) <==>
      && Print(NewEntries(a, name)) == PrintEntry(Entry(name, NewId(a)))
      && CanList(Dirs(a), a.files.Keys + {NewId(a) - 1}, id - 1, Listed(a, id), NewEntries(a, name))
  {
  }

  /** A name without slashes and colons always keeps the namespace tidy. */
  lemma CleanEntryKeeps(a: A.Abs, id: nat, name: Text, kind: Kind)
    requires Tidy(a) && CleanName(name)
    ensures D.SizesOk(a) && EntryKeeps(a, id, name, kind)
  {
    hide *;
    TidyParts(a);
    ProperSizes(a);
    EntersIf(a, id, name, kind);
    if EntersDirectory(a, id, name, kind) {
      EntryKeepsIf(a, id, name, kind);
      MadeFacts(a, id, name);
      NewEntriesAre(a, name);
      var l, e := Listed(a, id), Entry(name, NewId(a));
      ParsePrintedEntry(e);
      PrintStep([], e);
      assert [] + [e] == [e] && [] + PrintEntry(e) == PrintEntry(e);
      CleanListed(a, id, name, kind);
    }
  }

  lemma CleanListed(a: A.Abs, id: nat, name: Text, kind: Kind)
    requires Tidy(a) && D.SizesOk(a) && Creatable(a) && NewId(a) <= MAX_ID && EntersDirectory(a, id, name, kind)
    ensures id > 0
    ensures CanList(Dirs(a), a.files.Keys + {NewId(a) - 1}, id - 1, Listed(a, id), [Entry(name, NewId(a))])
  {
    var l, e := Listed(a, id), Entry(name, NewId(a));
    ListedBefore(a, id, name, kind);
    NotLiveNotNamed(a, e.id);
    assert forall q | q in Dirs(a) :: e.id !in Ids(Dirs(a)[q]);
    hide Distinct, Ids, D.FindEntry, Dirs, Listed, EntersDirectory, Tidy, Named;
    FindEntryNone(l, name);
    AppendDistinct(l, e);
    EmptyList();
    AppendIds([], e);
    assert [] + [e] == [e];
  }

  /** The directory does not have the name yet. */
  lemma ListedBefore(a: A.Abs, id: nat, name: Text, kind: Kind)
    requires Tidy(a) && D.SizesOk(a) && EntersDirectory(a, id, name, kind)
    ensures id > 0 && Creatable(a) && !Live(a, NewId(a))
    ensures Distinct(Listed(a, id)) && D.FindEntry(Listed(a, id), name) == None
    ensures Listed(a, id) == [] || (id - 1 in Dirs(a) && Dirs(a)[id - 1] == Listed(a, id))
  {
    EmptyList();
    FindEntryNone([], name);
    if IsDirectory(a, id) {
      ReadBefore(a, id, name);
      DirectoryLookup(a, id, name);
    }
    hide Distinct, Ids, D.FindEntry, D.Lookup, Parse, Printed, Proper, A.FirstUnused, EntryFits;
  }

  lemma ReadBefore(a: A.Abs, id: nat, name: Text)
    requires D.SizesOk(a) && Creatable(a) && EntryFits(a, id, name) && IsDirectory(a, id)
    ensures id < a.maxInodes - 1
  {
  }

  lemma WriteElsewhere(a: A.Abs, id: nat, content: seq<byte>, now: u64)
    requires BlockSizeOk(a.bs) && (A.WriteFile(a, id, content, now).1.Ok? ==> !IsDirectory(a, id))
    ensures var c := WriteChange(a, id, content, now); (c.Stores? ==> !IsDirectory(a, c.r + 1)) && !c.Leaves?
  {
  }

  /** What a new inode and a write to `id` leave as it was. */
  lemma MkFiles(a: A.Abs, id: nat, text: seq<byte>, kind: Kind, now: u64, q: nat)
    requires D.SizesOk(a) && A.AllocInode(a, kind, now).1.Ok?
    requires A.WriteFile(A.AllocInode(a, kind, now).0, id, text, now).1.Ok?
    ensures var (b, r) := A.AllocInode(a, kind, now); var c := A.WriteFile(b, id, text, now).0;
      && !Live(a, r.value) && Live(c, r.value) && c.files[r.value - 1].kind == kind
      && A.ReadFile(c, id) == Ok(text)
      && A.ReadFile(b, id) == (if id == r.value then Ok([]) else A.ReadFile(a, id))
      && (q != id && q != r.value ==> A.ReadFile(c, q) == A.ReadFile(a, q))
  {
  }

  /** Making an entry creates a file under a number not in use, and the name then leads to it, exactly if
      the text can carry the name. Every name is found as before if it was found before, and otherwise in what
      the new entry holds: a name with slashes or colons brings other names with it. Other files are as before. A
      parent that is not there becomes the file itself if its number is the one that is given out. */
  lemma MkHelperLookups(a: A.Abs, id: nat, name: Text, kind: Kind, now: u64, n: Text, q: nat)
    requires D.SizesOk(a) && D.MkHelper(a, id, name, kind, now).1.Ok?
    ensures Creatable(a)
    ensures var (b, r) := D.MkHelper(a, id, name, kind, now);
      var was, brought := D.Lookup(a, id, n), D.FindEntry(NewEntries(a, name), n);
      && r == Ok(NewId(a)) && !Live(a, r.value) && Live(b, r.value) && b.files[r.value - 1].kind == kind
      && D.Lookup(b, id, n) ==
        (if id != r.value && was.Ok? then was else if brought.Some? then Ok(brought.value) else Err(NotExist))
      && (id != r.value ==> (D.Lookup(b, id, n) == was <==> was.Ok? || brought.None?))
      && (D.Lookup(b, id, name) == Ok(r.value) <==> CleanName(name))
      && (CleanName(name) && n != name ==> D.Lookup(b, id, n) == if id == r.value then Err(NotExist) else was)
      && (q != id && q != r.value ==> A.ReadFile(b, q) == A.ReadFile(a, q) && D.Lookup(b, q, n) == D.Lookup(a, q, n))
  {
    hide *;
    MkHelperExact(a, id, name, kind, now);
    MkWrites(a, id, name, kind, now);
    FileMade(a, id, kind, now);
    MadeFacts(a, id, name);
    EntryRead(a, id, name);
    NewEntriesAre(a, name);
    var b, newId, s := D.MkHelper(a, id, name, kind, now).0, NewId(a), ParentText(a, id).value;
    var text, e := AppendToDirectory(s, name, newId), Entry(name, newId);
    MkFiles(a, id, text, kind, now, q);
    AppendEntries(s, name, newId);
    NotFoundBefore(a, id, name, s, newId);
    NotFoundBefore(a, id, n, s, newId);
    LookupIn(b, id, text, name);
    LookupIn(b, id, text, n);
    FindConcat(Parse(s), Parse(PrintEntry(e)), n);
    if CleanName(name) {
      ParsePrintedEntry(e);
      FindConcat(Parse(s), [e], name);
      FindOnly(e, name);
      FindOnly(e, n);
    } else {
      UncleanNeverFound(b, id, name);
    }
    if q != id && q != newId { SameLookup(a, b, q, n); }
  }

  lemma EntryRead(a: A.Abs, id: nat, name: Text)
    requires D.SizesOk(a) && Creatable(a) && EntryFits(a, id, name)
    ensures ParentText(a, id).Ok?
  {
    hide ParentText;
  }

  lemma LookupIn(a: A.Abs, id: nat, s: seq<byte>, n: Text)
    requires A.ReadFile(a, id) == Ok(s)
    ensures D.Lookup(a, id, n) == match D.FindEntry(Parse(s), n) case Some(i) => Ok(i) case None => Err(NotExist)
  {
  }

  lemma FindOnly(e: Entry, n: Text)
    ensures D.FindEntry([e], n) == if e.name == n then Some(e.id) else None
  {
    assert D.FindEntry([e][1..], n) == None;
  }

  /** A name was found before if it stands in what could be read before. */
  lemma NotFoundBefore(a: A.Abs, id: nat, n: Text, s: seq<byte>, newId: nat)
    requires Ok(s) == if id == newId then Ok([]) else A.ReadFile(a, id)
    ensures id == newId ==> D.FindEntry(Parse(s), n) == None
    ensures id != newId ==>
      D.Lookup(a, id, n) == match D.FindEntry(Parse(s), n) case Some(i) => Ok(i) case None => Err(NotExist)
  {
  }

  /** A name with a slash or a colon is never found: making it again and again takes one inode after the
      other. */
  lemma UncleanNeverFound(a: A.Abs, id: nat, name: Text)
    requires !CleanName(name)
    ensures D.Lookup(a, id, name).Err?
  {
    if A.ReadFile(a, id).Ok? {
      var s := A.ReadFile(a, id).value;
      ParsedNamesClean(s);
      FindEntryNone(Parse(s), name);
      LookupIn(a, id, s, name);
    }
    hide Parse, CleanName, D.FindEntry, A.ReadFile;
  }

  // ---- Calls and runs ----

  /** Unlinking from the text of a file that is no directory. */
  lemma UnlinkElsewhere(a: A.Abs, id: nat, name: Text, now: u64)
    requires Tidy(a) && D.SizesOk(a) && BlockSizeOk(a.bs) && RemovesTarget(a, id, name) && !IsDirectory(a, id)
    ensures D.Lookup(a, id, name).Ok?
    ensures Tidy(D.Unlink(a, id, name, now).0) <==> !NamedElsewhere(a, D.Lookup(a, id, name).value)
  {
    hide *;
    TargetFound(a, id, name);
    var t := D.Lookup(a, id, name).value;
    UnlinkWrites(a, id, name, now);
    RemoveApplies(a, t);
    var c, m := RemoveChange(a, t), A.RemoveFile(a, t).0;
    TidyRemoved(a, c);
    if t != id {
      StillNone(a, c, id);
      TidyParts(a);
      ChangeProper(a, c);
      BlockSizes(m);
      TidyElsewhere(m, id, RmFromDirectory(A.ReadFile(a, id).value, name), now);
    }
  }

  lemma StillNone(a: A.Abs, c: Change, id: nat)
    requires Allowed(a, c) && c.Leaves? && !IsDirectory(a, id)
    ensures !IsDirectory(Apply(a, c), id)
  {
  }

  lemma RemoveTidy(a: A.Abs, id: nat)
    requires Tidy(a)
    ensures BlockSizeOk(a.bs) && (Tidy(A.RemoveFile(a, id).0) <==> (Removable(a, id) ==> !NamedElsewhere(a, id)))
  {
    hide *;
    TidyParts(a);
    BlockSizes(a);
    RemoveApplies(a, id);
    RemovesExactly(a, id);
    if Removable(a, id) {
      TidyRemoved(a, RemoveChange(a, id));
    } else {
      Idle(a);
    }
  }

  lemma RemovesExactly(a: A.Abs, id: nat)
    requires BlockSizeOk(a.bs)
    ensures A.RemoveFile(a, id).1.Ok? <==> Removable(a, id)
  {
    hide Direct;
    if A.ReadFile(a, id).Ok? { C.RemoveSucceeds(a, id); }
  }

  lemma UnlinkTidy(a: A.Abs, id: nat, name: Text, now: u64)
    requires Tidy(a)
    ensures D.SizesOk(a) && BlockSizeOk(a.bs)
    ensures RemovesTarget(a, id, name) ==> D.Lookup(a, id, name).Ok?
    ensures Tidy(D.Unlink(a, id, name, now).0) <==>
      (RemovesTarget(a, id, name) && !IsDirectory(a, id) ==> !NamedElsewhere(a, D.Lookup(a, id, name).value))
  {
    hide *;
    TidyParts(a);
    ProperSizes(a);
    BlockSizes(a);
    if !RemovesTarget(a, id, name) {
      UnlinkExact(a, id, name, now);
    } else if IsDirectory(a, id) {
      TargetFound(a, id, name);
      UnlinkAllOrNothing(a, id, name, now);
    } else {
      UnlinkElsewhere(a, id, name, now);
    }
  }

  /** What a call comes to. */
  lemma StepState(a: A.Abs, op: Op)
    requires D.SizesOk(a) && BlockSizeOk(a.bs)
    ensures op.AllocInode? ==> Step(a, op).0 == A.AllocInode(a, op.kind, op.now).0
    ensures op.RemoveFile? ==> Step(a, op).0 == A.RemoveFile(a, op.id).0
    ensures op.MkHelper? ==> Step(a, op).0 == D.MkHelper(a, op.id, op.name, op.kind, op.now).0
    ensures op.Unlink? ==> Step(a, op).0 == D.Unlink(a, op.id, op.name, op.now).0
    ensures Written(a, op).Some? ==> Step(a, op).0 == A.WriteFile(a, op.id, Written(a, op).value, op.now).0
    ensures !op.AllocInode? && !op.RemoveFile? && !op.MkHelper? && !op.Unlink? && Written(a, op).None? ==>
      Step(a, op).0 == a
  {
    if op.WriteFile? || op.WriteAt? || op.Resize? { WritesText(a, op); }
    hide A.AllocInode, A.RemoveFile, A.WriteFile, A.WriteAt, A.ResizeFile, D.MkHelper, D.Unlink, Written;
  }

  /** A call keeps the namespace tidy exactly if it was one that does. */
  lemma StepTidy(a: A.Abs, op: Op)
    requires Tidy(a)
    ensures D.SizesOk(a) && (Tidy(Step(a, op).0) <==> KeepsTidy(a, op))
  {
    hide *;
    TidyParts(a);
    ProperSizes(a);
    BlockSizes(a);
    StepState(a, op);
    KeepsIf(a, op);
    if op.MkHelper? {
      MkHelperTidy(a, op.id, op.name, op.kind, op.now);
    } else if op.Unlink? {
      UnlinkTidy(a, op.id, op.name, op.now);
    } else if op.RemoveFile? {
      RemoveTidy(a, op.id);
    } else if op.AllocInode? {
      AllocApplies(a, op.kind, op.now);
      AllocTidy(a, AllocChange(a, op.kind, op.now));
    } else if Written(a, op).Some? {
      WriteTidy(a, op.id, Written(a, op).value, op.now);
    }
  }

  lemma KeepsIf(a: A.Abs, op: Op)
    requires D.SizesOk(a) && BlockSizeOk(a.bs)
    ensures op.AllocInode? ==> KeepsTidy(a, op)
    ensures op.RemoveFile? ==> (KeepsTidy(a, op) <==> (Removable(a, op.id) ==> !NamedElsewhere(a, op.id)))
    ensures op.MkHelper? ==> (KeepsTidy(a, op) <==> EntryKeeps(a, op.id, op.name, op.kind))
    ensures op.Unlink? ==> (RemovesTarget(a, op.id, op.name) ==> D.Lookup(a, op.id, op.name).Ok?)
    ensures op.Unlink? ==> (KeepsTidy(a, op) <==>
      (RemovesTarget(a, op.id, op.name) && !IsDirectory(a, op.id)
       ==> !NamedElsewhere(a, D.Lookup(a, op.id, op.name).value)))
    ensures Written(a, op).Some? ==> (KeepsTidy(a, op) <==> TextKeeps(a, op.id, Written(a, op).value))
    ensures !op.RemoveFile? && !op.MkHelper? && !op.Unlink? && Written(a, op).None? ==> KeepsTidy(a, op)
  {
    hide Removable, NamedElsewhere, EntryKeeps, TextKeeps, IsDirectory;
  }

  /** Disciplined calls do. */
  lemma DisciplinedKeeps(a: A.Abs, op: Op)
    requires Tidy(a) && Disciplined(a, op)
    ensures D.SizesOk(a) && KeepsTidy(a, op)
  {
    hide *;
    TidyParts(a);
    ProperSizes(a);
    BlockSizes(a);
    KeepsIf(a, op);
    DisciplineIs(a, op);
    if op.MkHelper? {
      CleanEntryKeeps(a, op.id, op.name, op.kind);
    } else if op.RemoveFile? {
      ElsewhereNamed(a, op.id);
    } else if op.Unlink? && RemovesTarget(a, op.id, op.name) {
      FoundLive(a, op.id, op.name);
    } else if Written(a, op).Some? {
      TextKeepsIf(a, op.id, Written(a, op).value);
    }
  }

  lemma DisciplineIs(a: A.Abs, op: Op)
    requires Disciplined(a, op)
    ensures op.RemoveFile? ==> !Named(a, op.id)
    ensures op.MkHelper? ==> CleanName(op.name)
    ensures op.Unlink? ==> !Live(a, op.id) || IsDirectory(a, op.id)
    ensures Written(a, op).Some? ==> !IsDirectory(a, op.id)
  {
    hide Named, CleanName, IsDirectory, Live;
  }

  lemma ElsewhereNamed(a: A.Abs, id: nat)
    ensures NamedElsewhere(a, id) ==> Named(a, id)
  {
    hide Dirs, Ids;
  }

  lemma FoundLive(a: A.Abs, id: nat, name: Text)
    ensures D.Lookup(a, id, name).Ok? ==> Live(a, id)
  {
  }

  /** The namespace is tidy through the first calls of a run exactly if each of them was one that keeps it so. */
  lemma {:induction false} RunTidy(a: A.Abs, ops: seq<Op>, n: nat)
    requires Tidy(a) && D.SizesOk(a) && n <= |ops|
    ensures (forall i | 0 <= i <= n :: Tidy(StateAt(a, ops, i)))
      <==> forall i | 0 <= i < n :: KeepsTidy(StateAt(a, ops, i), ops[i])
  {
    hide *;
    if n == 0 {
      StateAtEnds(a, ops);
    } else {
      RunTidy(a, ops, n - 1);
      RunStep(a, ops, n - 1);
      if Tidy(StateAt(a, ops, n - 1)) { StepTidy(StateAt(a, ops, n - 1), ops[n - 1]); }
    }
  }

  /** A new volume is tidy. */
  lemma NewIsTidy(a: A.Abs)
    requires Proper(a) && a.files == map[]
    ensures Tidy(a)
  {
  }
}
