/** The tree that directories make of the files: no file lies below itself, every file lies below exactly one
    root, and the roots are the files that have no entry. */
module Forest {
  import opened Bytes
  import opened Inodes
  import opened DirectoryText
  import opened EntryLists
  import opened AbstractRuns
  import opened Outcomes
  import opened Namespace
  import A = AbstractFs
  import D = AbstractDirs

  // ---- Ways down ----

  /** File `x` is a directory and has an entry with id `y`. */
  predicate Lists(dirs: map<nat, seq<Entry>>, x: nat, y: nat) {
    x > 0 && x - 1 in dirs && y in Ids(dirs[x - 1])
  }

  /** Each file of `s` but the first is listed in the one before it. */
  ghost predicate Way(dirs: map<nat, seq<Entry>>, s: seq<nat>) {
    s != [] && forall i | 0 <= i < |s| - 1 :: Lists(dirs, s[i], s[i + 1])
  }

  /** `y` is `x`, or lies below it. */
  ghost predicate Leads(dirs: map<nat, seq<Entry>>, x: nat, y: nat) {
    exists s :: Way(dirs, s) && s[0] == x && s[|s| - 1] == y
  }

  /** No file lies below itself. */
  ghost predicate Acyclic(dirs: map<nat, seq<Entry>>) {
    forall s | Way(dirs, s) && |s| > 1 :: s[0] != s[|s| - 1]
  }

  lemma FewerWays(dirs: map<nat, seq<Entry>>, after: map<nat, seq<Entry>>)
    requires forall x: nat, y: nat | Lists(after, x, y) :: Lists(dirs, x, y)
    ensures Acyclic(dirs) ==> Acyclic(after)
    ensures forall s | Way(after, s) :: Way(dirs, s)
  {
    hide Lists;
  }

  /** A way cut where it first comes to `p`. */
  lemma {:induction false} FirstVisit(dirs: map<nat, seq<Entry>>, s: seq<nat>, p: nat) returns (t: seq<nat>)
    requires Way(dirs, s) && p in s
    ensures Way(dirs, t) && t[0] == s[0] && t[|t| - 1] == p && p !in t[..|t| - 1]
  {
    var i :| 0 <= i < |s| && s[i] == p;
    t := s[..i + 1];
    if p in s[..i] { t := FirstVisit(dirs, s[..i], p); }
  }

  /** A way that leaves `p` at its start only is one as long as the other directories are the same. */
  lemma SameWay(dirs: map<nat, seq<Entry>>, after: map<nat, seq<Entry>>, t: seq<nat>, p: nat)
    requires Way(dirs, t) && p !in t[..|t| - 1]
    requires forall x: nat, y: nat | x != p :: Lists(dirs, x, y) <==> Lists(after, x, y)
    ensures Way(after, t)
  {
    hide Lists;
    forall i | 0 <= i < |t| - 1 ensures Lists(after, t[i], t[i + 1]) { assert t[i] in t[..|t| - 1]; }
  }

  lemma StepDown(dirs: map<nat, seq<Entry>>, x: nat, t: seq<nat>)
    requires Way(dirs, t) && Lists(dirs, x, t[0])
    ensures Way(dirs, [x] + t)
  {
    hide Lists;
  }

  lemma Turned(dirs: map<nat, seq<Entry>>, c: seq<nat>, p: nat) returns (r: seq<nat>)
    requires Way(dirs, c) && |c| > 1 && c[0] == c[|c| - 1] && p in c[..|c| - 1]
    ensures Way(dirs, r) && |r| > 1 && r[0] == p && r[|r| - 1] == p
  {
    hide Lists;
    var i :| 0 <= i < |c| - 1 && c[i] == p;
    r := c[i..] + c[1..i + 1];
    assert r[|r| - 1] == p;
    forall k | 0 <= k < |r| - 1 ensures Lists(dirs, r[k], r[k + 1]) {
      if k < |c| - i - 1 {
        assert r[k] == c[i + k] && r[k + 1] == c[i + k + 1];
      } else {
        assert r[k] == c[k - (|c| - i) + 1] && r[k + 1] == c[k - (|c| - i) + 2];
      }
    }
  }

  /** Listing `m` in directory `p`, after `l` that it listed before, closes no circle exactly if none of `m`
      leads to `p`. */
  lemma AcyclicListed(
    dirs: map<nat, seq<Entry>>, after: map<nat, seq<Entry>>, p: nat, l: seq<Entry>, m: seq<Entry>)
    requires Acyclic(dirs) && p > 0 && after == dirs[p - 1 := l + m]
    requires l == [] || (p - 1 in dirs && dirs[p - 1] == l)
    ensures Acyclic(after) <==> forall y | y in Ids(m) :: !Leads(dirs, y, p)
  {
    ConcatIds(l, m);
    EmptyList();
    assert forall x: nat, y: nat | x != p :: Lists(dirs, x, y) <==> Lists(after, x, y);
    assert forall y :: Lists(after, p, y) <==> y in Ids(l) || y in Ids(m);
    assert forall y | y in Ids(l) :: Lists(dirs, p, y);
    hide Lists, Ids;
    if y: nat :| y in Ids(m) && Leads(dirs, y, p) {
      ClosesCircle(dirs, after, p, y);
    }
    if !Acyclic(after) {
      var c :| Way(after, c) && |c| > 1 && c[0] == c[|c| - 1];
      if p in c[..|c| - 1] {
        var r := Turned(after, c, p);
        var t := BackTo(dirs, after, r, p);
        if t[0] in Ids(l) { StepDown(dirs, p, t); }
        assert t[0] in Ids(m) && Leads(dirs, t[0], p);
      } else {
        SameWay(after, dirs, c, p);
      }
    }
  }

  lemma ClosesCircle(dirs: map<nat, seq<Entry>>, after: map<nat, seq<Entry>>, p: nat, y: nat)
    requires Leads(dirs, y, p) && Lists(after, p, y)
    requires forall x: nat, z: nat | x != p :: Lists(dirs, x, z) <==> Lists(after, x, z)
    ensures !Acyclic(after)
  {
    hide Lists;
    var s :| Way(dirs, s) && s[0] == y && s[|s| - 1] == p;
    var t := FirstVisit(dirs, s, p);
    SameWay(dirs, after, t, p);
    StepDown(after, p, t);
  }

  /** The way from the second file of a circle back to the first. */
  lemma BackTo(dirs: map<nat, seq<Entry>>, after: map<nat, seq<Entry>>, r: seq<nat>, p: nat) returns (t: seq<nat>)
    requires Way(after, r) && |r| > 1 && r[0] == p && r[|r| - 1] == p
    requires forall x: nat, y: nat | x != p :: Lists(dirs, x, y) <==> Lists(after, x, y)
    ensures Way(dirs, t) && Lists(after, p, t[0]) && t[|t| - 1] == p
  {
    hide Lists;
    var rest := r[1..];
    assert rest[|rest| - 1] == p && Lists(after, r[0], r[1]);
    t := FirstVisit(after, rest, p);
    SameWay(after, dirs, t, p);
  }

  // ---- What calls do to the lists ----

  lemma WriteDirs(a: A.Abs, id: nat, text: Text, now: u64)
    requires BlockSizeOk(a.bs)
    ensures var b := A.WriteFile(a, id, text, now).0;
      && b.files.Keys == a.files.Keys && (IsDirectory(a, id) ==> id > 0)
      && Dirs(b) == if IsDirectory(a, id) && Writes(a, id, text) then Dirs(a)[id - 1 := Parse(text)] else Dirs(a)
  {
    hide *;
    var b := A.WriteFile(a, id, text, now).0;
    WritesExactly(a, id, text, now);
    if IsDirectory(a, id) && Writes(a, id, text) {
      InDirs(a, id);
      var f := A.AFile(Directory, text, now);
      DirectoryWritten(a, id, text, now);
      SameNumbers(a, b, id, f);
      DirsStored(a, b, id - 1, f);
    } else {
      WriteApplies(a, id, text, now);
      var c := WriteChange(a, id, text, now);
      WriteElsewhere(a, id, text, now);
      DirsAfter(a, c);
      SameNames(a, c);
      if IsDirectory(a, id) { InDirs(a, id); }
    }
  }

  lemma DirectoryWritten(a: A.Abs, id: nat, text: Text, now: u64)
    requires BlockSizeOk(a.bs) && IsDirectory(a, id) && Writes(a, id, text)
    ensures A.WriteFile(a, id, text, now).0.files == a.files[id - 1 := A.AFile(Directory, text, now)]
  {
    WriteOutcome(a, id, text, now);
    hide A.WriteFile, Fits, Spent;
  }

  /** The directories once the new file is there. */
  function WithNew(a: A.Abs, kind: Kind): map<nat, seq<Entry>>
    requires Creatable(a)
  {
    if kind == Directory then Dirs(a)[NewId(a) - 1 := []] else Dirs(a)
  }

  lemma AllocDirs(a: A.Abs, kind: Kind, now: u64)
    requires D.SizesOk(a)
    ensures var b := A.AllocInode(a, kind, now).0;
      if Creatable(a) then Dirs(b) == WithNew(a, kind) && b.files.Keys == a.files.Keys + {NewId(a) - 1}
      else Dirs(b) == Dirs(a) && b.files.Keys == a.files.Keys
  {
    FileMade(a, 0, kind, now);
    EmptyToken();
    hide Parse, A.AllocInode, A.FirstUnused, A.ReadFile, ParentText;
  }

  lemma MkDirs(a: A.Abs, id: nat, name: Text, kind: Kind, now: u64)
    requires D.SizesOk(a)
    ensures var b := D.MkHelper(a, id, name, kind, now).0;
      if MakesFile(a, id, name)
      then
        && b.files.Keys == a.files.Keys + {NewId(a) - 1} && (EntersDirectory(a, id, name, kind) ==> id > 0)
        && Dirs(b) == if EntersDirectory(a, id, name, kind)
                      then WithNew(a, kind)[id - 1 := Listed(a, id) + NewEntries(a, name)] else WithNew(a, kind)
      else Dirs(b) == Dirs(a) && b.files.Keys == a.files.Keys
  {
    hide *;
    FileMade(a, id, kind, now);
    AllocDirs(a, kind, now);
    MkWrites(a, id, name, kind, now);
    MakesIf(a, id, name);
    EntersIf(a, id, name, kind);
    if MakesFile(a, id, name) && EntryFits(a, id, name) { EntryRead(a, id, name); }
    if MakesFile(a, id, name) && ParentText(a, id).Ok? {
      MadeFacts(a, id, name);
      var b := A.AllocInode(a, kind, now).0;
      var text := AppendToDirectory(ParentText(a, id).value, name, NewId(a));
      EntryRoom(a, b, id, name, kind, text);
      WriteDirs(b, id, text, now);
      NewEntriesAre(a, name);
      AppendEntries(ParentText(a, id).value, name, NewId(a));
      if IsDirectory(b, id) {
        DirsMade(a, b, id, kind, now);
        TextOf(b, id);
      }
    }
  }

  lemma MakesIf(a: A.Abs, id: nat, name: Text)
    ensures MakesFile(a, id, name) <==> D.Lookup(a, id, name).Err? && Creatable(a)
  {
  }

  lemma TextOf(a: A.Abs, id: nat)
    requires IsDirectory(a, id) && A.ReadFile(a, id).Ok?
    ensures id > 0 && id - 1 in Dirs(a) && Dirs(a)[id - 1] == Parse(A.ReadFile(a, id).value)
  {
  }

  lemma RemoveDirs(a: A.Abs, id: nat)
    requires BlockSizeOk(a.bs)
    ensures var b := A.RemoveFile(a, id).0;
      if Removable(a, id)
      then id > 0 && Dirs(b) == Dirs(a) - {id - 1} && b.files.Keys == a.files.Keys - {id - 1}
      else b == a
  {
    hide *;
    RemovesExactly(a, id);
    RemoveApplies(a, id);
    Idle(a);
    if Removable(a, id) {
      DirsAfter(a, RemoveChange(a, id));
      FilesAfter(a, RemoveChange(a, id));
    }
  }

  lemma UnlinkDirs(a: A.Abs, id: nat, name: Text, now: u64)
    requires D.SizesOk(a) && BlockSizeOk(a.bs)
    ensures var b := D.Unlink(a, id, name, now).0;
      if RemovesTarget(a, id, name)
      then
        && D.Lookup(a, id, name).Ok? && D.Lookup(a, id, name).value > 0
        && b.files.Keys == a.files.Keys - {D.Lookup(a, id, name).value - 1}
        && (IsDirectory(a, id) ==> id > 0 && id - 1 in Dirs(a))
        && Dirs(b) == if IsDirectory(a, id) && EntryGoes(a, id, name)
                      then Dirs(a)[id - 1 := Without(Dirs(a)[id - 1], name)] else Dirs(a)
      else b == a
  {
    hide *;
    UnlinkWrites(a, id, name, now);
    UnlinkExact(a, id, name, now);
    if RemovesTarget(a, id, name) {
      TargetFound(a, id, name);
      var t := D.Lookup(a, id, name).value;
      TargetGone(a, id, name);
      RemoveDirs(a, t);
      NotADirectory(a, t - 1);
      assert Dirs(a) - {t - 1} == Dirs(a);
      if IsDirectory(a, id) { TextOf(a, id); }
      if t != id {
        var m, s := A.RemoveFile(a, t).0, A.ReadFile(a, id).value;
        WriteDirs(m, id, RmFromDirectory(s, name), now);
        WritesExactly(m, id, RmFromDirectory(s, name), now);
        RmParsed(s, name);
        StillDirectory(a, m, id);
      }
    }
  }

  lemma StillDirectory(a: A.Abs, m: A.Abs, id: nat)
    requires Dirs(m) == Dirs(a)
    ensures IsDirectory(m, id) <==> IsDirectory(a, id)
  {
    hide Parse;
    if id > 0 { assert id - 1 in Dirs(m) <==> id - 1 in Dirs(a); }
  }

  // ---- No circles ----

  /** None of the entries leads to `p`. */
  ghost predicate NoneLeads(dirs: map<nat, seq<Entry>>, m: seq<Entry>, p: nat) {
    forall y | y in Ids(m) :: !Leads(dirs, y, p)
  }

  /** If `text` gets written to a directory, nothing in it leads there. */
  ghost predicate TextAcyclic(a: A.Abs, id: nat, text: Text)
    requires BlockSizeOk(a.bs)
  {
    IsDirectory(a, id) && Writes(a, id, text) ==> NoneLeads(Dirs(a), Parse(text), id)
  }

  /** Known before the call: whether it will keep the files without circles. Those that are not mentioned
      always do, making an entry in a directory does if nothing in the entry leads to the directory, and writing
      to one if nothing in the text does. */
  ghost predicate KeepsAcyclic(a: A.Abs, op: Op)
    requires D.SizesOk(a)
  {
    match op
    case MkHelper(id, name, kind, _) =>
      EntersDirectory(a, id, name, kind) ==> NoneLeads(Dirs(a), NewEntries(a, name), id)
    case _ => Written(a, op).Some? ==> TextAcyclic(a, op.id, Written(a, op).value)
  }

  lemma AcyclicWith(dirs: map<nat, seq<Entry>>, r: nat)
    requires r !in dirs
    ensures forall x: nat, y: nat :: Lists(dirs[r := []], x, y) <==> Lists(dirs, x, y)
    ensures Acyclic(dirs[r := []]) <==> Acyclic(dirs)
    ensures forall x: nat, y: nat :: Leads(dirs[r := []], x, y) <==> Leads(dirs, x, y)
  {
    EmptyList();
    assert forall x: nat, y: nat :: Lists(dirs[r := []], x, y) <==> Lists(dirs, x, y);
    hide Lists;
    SameWays(dirs, dirs[r := []]);
  }

  lemma SameWays(dirs: map<nat, seq<Entry>>, after: map<nat, seq<Entry>>)
    requires forall x: nat, y: nat :: Lists(dirs, x, y) <==> Lists(after, x, y)
    ensures Acyclic(after) <==> Acyclic(dirs)
    ensures forall x: nat, y: nat :: Leads(after, x, y) <==> Leads(dirs, x, y)
  {
    hide Lists;
    FewerWays(dirs, after);
    FewerWays(after, dirs);
  }

  lemma AcyclicWithout(dirs: map<nat, seq<Entry>>, r: nat, l: seq<Entry>)
    requires Acyclic(dirs) && (r in dirs ==> Ids(l) <= Ids(dirs[r]))
    ensures Acyclic(dirs - {r}) && (r in dirs ==> Acyclic(dirs[r := l]))
  {
    assert forall x: nat, y: nat | Lists(dirs - {r}, x, y) :: Lists(dirs, x, y);
    assert r in dirs ==> forall x: nat, y: nat | Lists(dirs[r := l], x, y) :: Lists(dirs, x, y);
    hide Lists, Ids;
    FewerWays(dirs, dirs - {r});
    if r in dirs { FewerWays(dirs, dirs[r := l]); }
  }

  lemma WriteAcyclic(a: A.Abs, id: nat, text: Text, now: u64)
    requires BlockSizeOk(a.bs) && Acyclic(Dirs(a))
    ensures Acyclic(Dirs(A.WriteFile(a, id, text, now).0)) <==> TextAcyclic(a, id, text)
  {
    hide *;
    WriteDirs(a, id, text, now);
    TextAcyclicIf(a, id, text);
    if IsDirectory(a, id) && Writes(a, id, text) {
      assert [] + Parse(text) == Parse(text);
      AcyclicListed(Dirs(a), Dirs(A.WriteFile(a, id, text, now).0), id, [], Parse(text));
      NoneLeadsIf(Dirs(a), Parse(text), id);
    }
  }

  lemma TextAcyclicIf(a: A.Abs, id: nat, text: Text)
    requires BlockSizeOk(a.bs)
    ensures TextAcyclic(a, id, text) <==>
      (IsDirectory(a, id) && Writes(a, id, text) ==> NoneLeads(Dirs(a), Parse(text), id))
  {
  }

  lemma NoneLeadsIf(dirs: map<nat, seq<Entry>>, m: seq<Entry>, p: nat)
    ensures NoneLeads(dirs, m, p) <==> forall y | y in Ids(m) :: !Leads(dirs, y, p)
  {
  }

  lemma NewAcyclic(a: A.Abs, kind: Kind)
    requires Creatable(a)
    ensures NewId(a) - 1 !in Dirs(a) && (Acyclic(WithNew(a, kind)) <==> Acyclic(Dirs(a)))
    ensures forall x: nat, y: nat :: Leads(WithNew(a, kind), x, y) <==> Leads(Dirs(a), x, y)
  {
    var r := NewId(a) - 1;
    assert r !in Dirs(a);
    AcyclicWith(Dirs(a), r);
    hide Leads, Acyclic, Dirs, Lists;
  }

  lemma MkAcyclic(a: A.Abs, id: nat, name: Text, kind: Kind, now: u64)
    requires D.SizesOk(a) && Acyclic(Dirs(a))
    ensures EntersDirectory(a, id, name, kind) ==> Creatable(a)
    ensures Acyclic(Dirs(D.MkHelper(a, id, name, kind, now).0)) <==>
      (EntersDirectory(a, id, name, kind) ==> NoneLeads(Dirs(a), NewEntries(a, name), id))
  {
    hide *;
    MkDirs(a, id, name, kind, now);
    MakesIf(a, id, name);
    EntersIf(a, id, name, kind);
    if MakesFile(a, id, name) {
      NewAcyclic(a, kind);
      if EntersDirectory(a, id, name, kind) {
        NewListed(a, id, name, kind);
        var m, b := NewEntries(a, name), D.MkHelper(a, id, name, kind, now).0;
        AcyclicListed(WithNew(a, kind), Dirs(b), id, Listed(a, id), m);
        NoneLeadsIf(Dirs(a), m, id);
      }
    }
  }

  lemma NewListed(a: A.Abs, id: nat, name: Text, kind: Kind)
    requires D.SizesOk(a) && EntersDirectory(a, id, name, kind)
    ensures Creatable(a) && id > 0 && id - 1 in WithNew(a, kind) && WithNew(a, kind)[id - 1] == Listed(a, id)
  {
  }

  lemma UnlinkAcyclic(a: A.Abs, id: nat, name: Text, now: u64)
    requires D.SizesOk(a) && BlockSizeOk(a.bs) && Acyclic(Dirs(a))
    ensures Acyclic(Dirs(D.Unlink(a, id, name, now).0))
  {
    hide *;
    UnlinkDirs(a, id, name, now);
    if RemovesTarget(a, id, name) && IsDirectory(a, id) {
      WithoutPart(Dirs(a)[id - 1], name);
      AcyclicWithout(Dirs(a), id - 1, Without(Dirs(a)[id - 1], name));
    }
  }

  /** A call closes no circle exactly if it was one that keeps the files without circles; this holds whether or
      not the directories are tidy. */
  lemma StepAcyclic(a: A.Abs, op: Op)
    requires D.SizesOk(a) && Acyclic(Dirs(a))
    ensures Acyclic(Dirs(Step(a, op).0)) <==> KeepsAcyclic(a, op)
  {
    hide *;
    LegalSize(a);
    StepState(a, op);
    AcyclicIf(a, op);
    if op.MkHelper? {
      MkAcyclic(a, op.id, op.name, op.kind, op.now);
    } else if op.Unlink? {
      UnlinkAcyclic(a, op.id, op.name, op.now);
    } else if op.RemoveFile? {
      RemoveDirs(a, op.id);
      if Removable(a, op.id) {
        AcyclicWithout(Dirs(a), op.id - 1, if op.id - 1 in Dirs(a) then Dirs(a)[op.id - 1] else []);
      }
    } else if op.AllocInode? {
      AllocDirs(a, op.kind, op.now);
      if Creatable(a) { NewAcyclic(a, op.kind); }
    } else if Written(a, op).Some? {
      WriteAcyclic(a, op.id, Written(a, op).value, op.now);
    }
  }

  lemma LegalSize(a: A.Abs)
    requires D.SizesOk(a)
    ensures BlockSizeOk(a.bs)
  {
  }

  lemma AcyclicIf(a: A.Abs, op: Op)
    requires D.SizesOk(a) && BlockSizeOk(a.bs)
    ensures op.MkHelper? ==> EntersDirectory(a, op.id, op.name, op.kind) ==> Creatable(a)
    ensures op.MkHelper? ==> (KeepsAcyclic(a, op) <==>
      (EntersDirectory(a, op.id, op.name, op.kind) ==> NoneLeads(Dirs(a), NewEntries(a, op.name), op.id)))
    ensures Written(a, op).Some? ==> (KeepsAcyclic(a, op) <==> TextAcyclic(a, op.id, Written(a, op).value))
    ensures !op.MkHelper? && Written(a, op).None? ==> KeepsAcyclic(a, op)
  {
    hide NoneLeads, TextAcyclic, Dirs;
  }

  /** An entry with a clean name closes a circle only if the new file becomes its own parent; under a parent
      that is there it never does. */
  lemma CleanEntryAcyclic(a: A.Abs, id: nat, name: Text, kind: Kind, now: u64)
    requires D.SizesOk(a) && CleanName(name) && EntersDirectory(a, id, name, kind)
    ensures Creatable(a)
    ensures KeepsAcyclic(a, MkHelper(id, name, kind, now)) <==> id != NewId(a)
    ensures IsDirectory(a, id) ==> id != NewId(a)
  {
    hide *;
    EntersIf(a, id, name, kind);
    NewEntriesAre(a, name);
    var op, e := MkHelper(id, name, kind, now), Entry(name, NewId(a));
    LegalSize(a);
    AcyclicIf(a, op);
    NoneLeadsIf(Dirs(a), NewEntries(a, name), id);
    ParsePrintedEntry(e);
    EmptyList();
    AppendIds([], e);
    assert [] + [e] == [e];
    NewIsNoDirectory(a);
    NothingBelow(Dirs(a), NewId(a), id);
  }

  lemma NewIsNoDirectory(a: A.Abs)
    requires Creatable(a)
    ensures !Live(a, NewId(a)) && NewId(a) - 1 !in Dirs(a) && !IsDirectory(a, NewId(a))
  {
    hide A.FirstUnused;
  }

  lemma NothingBelow(dirs: map<nat, seq<Entry>>, x: nat, y: nat)
    requires x == 0 || x - 1 !in dirs
    ensures Leads(dirs, x, y) <==> x == y
  {
    assert Way(dirs, [x]) && [x][0] == x;
    forall s | Way(dirs, s) && s[0] == x ensures |s| == 1 {
      if |s| > 1 { WayStarts(dirs, s); }
    }
  }

  lemma WayStarts(dirs: map<nat, seq<Entry>>, s: seq<nat>)
    requires Way(dirs, s) && |s| > 1
    ensures Lists(dirs, s[0], s[1])
  {
  }

  /** There are no circles through the first calls of a run exactly if each of them was one that keeps it so. */
  lemma {:induction false} RunAcyclic(a: A.Abs, ops: seq<Op>, n: nat)
    requires D.SizesOk(a) && Acyclic(Dirs(a)) && n <= |ops|
    ensures (forall i | 0 <= i <= n :: Acyclic(Dirs(StateAt(a, ops, i))))
      <==> forall i | 0 <= i < n :: KeepsAcyclic(StateAt(a, ops, i), ops[i])
  {
    hide *;
    if n == 0 {
      StateAtEnds(a, ops);
    } else {
      RunAcyclic(a, ops, n - 1);
      RunStep(a, ops, n - 1);
      if Acyclic(Dirs(StateAt(a, ops, n - 1))) { StepAcyclic(StateAt(a, ops, n - 1), ops[n - 1]); }
    }
  }

  lemma NoDirectories()
    ensures Acyclic(map[])
  {
    forall s | Way(map[], s) ensures |s| == 1 {
      if |s| > 1 { WayStarts(map[], s); }
    }
  }

  /** The only directory there is, with one entry. */
  lemma OneDirectory(e: Entry)
    ensures Acyclic(map[0 := [e]]) <==> e.id != 1
  {
    NoDirectories();
    NothingBelow(map[], e.id, 1);
    EmptyList();
    AppendIds([], e);
    assert [] + [e] == [e] && map[0 := [e]] == map[][0 := [e]];
    hide Leads, Ids, Acyclic;
    AcyclicListed(map[], map[0 := [e]], 1, [], [e]);
  }

  // ---- Roots ----

  /** The files without an entry. */
  ghost function Roots(a: A.Abs): set<nat> {
    set r | r in a.files && !Named(a, r + 1) :: r + 1
  }

  /** The roots after a call, told from the state before it. Roots come from new inodes, from making entries
      that fail halfway or in files that are no directories, and from directories that are removed, or written
      to. */
  ghost function RootsAfter(a: A.Abs, op: Op): set<nat>
    requires D.SizesOk(a)
  {
    match op
    case AllocInode(_, _) => if Creatable(a) then Roots(a) + {NewId(a)} else Roots(a)
    case MkHelper(id, name, kind, _) => RootsMade(a, id, name, kind)
    case RemoveFile(id) => if Removable(a, id) then Roots(a) + Ids(Listed(a, id)) - {id} else Roots(a)
    case Unlink(id, name, _) => RootsLeft(a, id, name)
    case _ => if Written(a, op).Some? then RootsWritten(a, op.id, Written(a, op).value) else Roots(a)
  }

  /** A file is made, and named by what the entry holds if that gets into a directory. */
  ghost function RootsMade(a: A.Abs, id: nat, name: Text, kind: Kind): set<nat>
    requires D.SizesOk(a)
  {
    if !MakesFile(a, id, name) then Roots(a)
    else Roots(a) + {NewId(a)} - if EntersDirectory(a, id, name, kind) then Ids(NewEntries(a, name)) else {}
  }

  /** A file is gone. */
  ghost function RootsLeft(a: A.Abs, id: nat, name: Text): set<nat>
    requires BlockSizeOk(a.bs)
  {
    if RemovesTarget(a, id, name) then Roots(a) - {D.Lookup(a, id, name).value} else Roots(a)
  }

  /** A directory names the files in its new text and not those in its old one. */
  ghost function RootsWritten(a: A.Abs, id: nat, text: Text): set<nat>
    requires BlockSizeOk(a.bs)
  {
    if IsDirectory(a, id) && Writes(a, id, text) then Roots(a) + Ids(Listed(a, id)) - Ids(Parse(text)) else Roots(a)
  }

  lemma RootsMadeIs(a: A.Abs, id: nat, name: Text, kind: Kind)
    requires D.SizesOk(a)
    ensures MakesFile(a, id, name) ==> Creatable(a)
    ensures EntersDirectory(a, id, name, kind) ==> MakesFile(a, id, name)
    ensures RootsMade(a, id, name, kind) ==
      if !MakesFile(a, id, name) then Roots(a)
      else Roots(a) + {NewId(a)} - if EntersDirectory(a, id, name, kind) then Ids(NewEntries(a, name)) else {}
  {
    hide Roots, Ids;
  }

  lemma RootsWrittenIs(a: A.Abs, id: nat, text: Text)
    requires BlockSizeOk(a.bs)
    ensures RootsWritten(a, id, text) ==
      if IsDirectory(a, id) && Writes(a, id, text) then Roots(a) + Ids(Listed(a, id)) - Ids(Parse(text)) else Roots(a)
  {
    hide Roots, Ids, Parse;
  }

  lemma RootsLeftIs(a: A.Abs, id: nat, name: Text)
    requires BlockSizeOk(a.bs)
    ensures RemovesTarget(a, id, name) ==> D.Lookup(a, id, name).Ok?
    ensures RootsLeft(a, id, name) ==
      if RemovesTarget(a, id, name) then Roots(a) - {D.Lookup(a, id, name).value} else Roots(a)
  {
    hide Roots;
  }

  lemma RootsAre(a: A.Abs)
    ensures forall id: nat :: id in Roots(a) <==> Live(a, id) && !Named(a, id)
  {
    hide Named;
    forall id: nat ensures id in Roots(a) <==> Live(a, id) && !Named(a, id) {
      if Live(a, id) && !Named(a, id) { assert id - 1 in a.files && !Named(a, id - 1 + 1); }
    }
  }

  lemma SameLive(a: A.Abs, b: A.Abs)
    requires b.files.Keys == a.files.Keys
    ensures forall id: nat :: Live(b, id) <==> Live(a, id)
  {
  }

  lemma OneMoreLive(a: A.Abs, b: A.Abs, id: nat)
    requires id > 0 && b.files.Keys == a.files.Keys + {id - 1}
    ensures forall i: nat :: Live(b, i) <==> Live(a, i) || i == id
  {
  }

  lemma OneLessLive(a: A.Abs, b: A.Abs, id: nat)
    requires id > 0 && b.files.Keys == a.files.Keys - {id - 1}
    ensures forall i: nat :: Live(b, i) <==> Live(a, i) && i != id
  {
  }

  /** What a directory of a tidy volume lists is live. */
  lemma ListedLive(a: A.Abs, p: nat)
    requires Tidy(a) && p in Dirs(a)
    ensures forall id: nat | id in Ids(Dirs(a)[p]) :: Named(a, id) && Live(a, id)
  {
  }

  /** Who is named once one directory lists something else. */
  lemma NamedStored(a: A.Abs, b: A.Abs, p: nat, l: seq<Entry>)
    requires TidyDirs(Dirs(a), a.files) && p in Dirs(a) && Dirs(b) == Dirs(a)[p := l]
    ensures forall id: nat :: Named(b, id) <==> id in Ids(l) || (Named(a, id) && id !in Ids(Dirs(a)[p]))
  {
    hide Dirs, Ids;
    forall id: nat ensures Named(b, id) <==> id in Ids(l) || (Named(a, id) && id !in Ids(Dirs(a)[p])) {
      assert Dirs(b)[p] == l && p in Dirs(b);
      if Named(b, id) && id !in Ids(l) {
        var r :| r in Dirs(b) && id in Ids(Dirs(b)[r]);
        assert r in Dirs(a) && id in Ids(Dirs(a)[r]) && r != p;
      }
      if Named(a, id) && id !in Ids(Dirs(a)[p]) {
        var r :| r in Dirs(a) && id in Ids(Dirs(a)[r]);
        assert r in Dirs(b) && id in Ids(Dirs(b)[r]);
      }
    }
  }

  /** Who is named once a directory without entries is there. */
  lemma NamedEntered(a: A.Abs, b: A.Abs, r: nat)
    requires Dirs(b) == Dirs(a) || (r !in Dirs(a) && Dirs(b) == Dirs(a)[r := []])
    ensures forall id: nat :: Named(b, id) <==> Named(a, id)
  {
    EmptyList();
    hide Dirs, Ids;
    forall id: nat ensures Named(b, id) <==> Named(a, id) {
      if Named(b, id) {
        var q :| q in Dirs(b) && id in Ids(Dirs(b)[q]);
        assert q in Dirs(a) && id in Ids(Dirs(a)[q]);
      }
      if Named(a, id) {
        var q :| q in Dirs(a) && id in Ids(Dirs(a)[q]);
        assert q in Dirs(b) && id in Ids(Dirs(b)[q]);
      }
    }
  }

  /** Who is named once a directory is gone. */
  lemma NamedWithout(a: A.Abs, b: A.Abs, p: nat)
    requires TidyDirs(Dirs(a), a.files) && Dirs(b) == Dirs(a) - {p}
    ensures forall id: nat :: Named(b, id) <==> Named(a, id) && (p in Dirs(a) ==> id !in Ids(Dirs(a)[p]))
  {
    hide Dirs, Ids;
    forall id: nat ensures Named(b, id) <==> Named(a, id) && (p in Dirs(a) ==> id !in Ids(Dirs(a)[p])) {
      if Named(b, id) {
        var r :| r in Dirs(b) && id in Ids(Dirs(b)[r]);
        assert r in Dirs(a) && id in Ids(Dirs(a)[r]) && r != p;
      }
      if Named(a, id) && (p in Dirs(a) ==> id !in Ids(Dirs(a)[p])) {
        var r :| r in Dirs(a) && id in Ids(Dirs(a)[r]);
        assert r in Dirs(b) && id in Ids(Dirs(b)[r]);
      }
    }
  }

  lemma RootsStored(a: A.Abs, b: A.Abs, p: nat, l: seq<Entry>)
    requires Tidy(a) && p in Dirs(a) && Dirs(b) == Dirs(a)[p := l] && b.files.Keys == a.files.Keys
    ensures Roots(b) == Roots(a) + Ids(Dirs(a)[p]) - Ids(l)
  {
    hide *;
    TidyParts(a);
    ListedLive(a, p);
    SameLive(a, b);
    NamedStored(a, b, p, l);
    RootsAre(a);
    RootsAre(b);
  }

  lemma RootsUnlinked(a: A.Abs, b: A.Abs, p: nat, l: seq<Entry>, t: nat)
    requires Tidy(a) && p in Dirs(a) && Dirs(b) == Dirs(a)[p := l]
    requires t > 0 && b.files.Keys == a.files.Keys - {t - 1} && Ids(l) == Ids(Dirs(a)[p]) - {t}
    ensures Roots(b) == Roots(a) - {t}
  {
    hide *;
    TidyParts(a);
    ListedLive(a, p);
    OneLessLive(a, b, t);
    NamedStored(a, b, p, l);
    RootsAre(a);
    RootsAre(b);
  }

  lemma RootsSame(a: A.Abs, b: A.Abs)
    requires Dirs(b) == Dirs(a) && b.files.Keys == a.files.Keys
    ensures Roots(b) == Roots(a)
  {
    hide *;
    SameLive(a, b);
    NamedEntered(a, b, 0);
    RootsAre(a);
    RootsAre(b);
  }

  lemma RootsEntered(a: A.Abs, b: A.Abs, kind: Kind)
    requires Tidy(a) && Creatable(a) && Dirs(b) == WithNew(a, kind) && b.files.Keys == a.files.Keys + {NewId(a) - 1}
    ensures Roots(b) == Roots(a) + {NewId(a)}
  {
    hide *;
    NewDirs(a, kind);
    OneMoreLive(a, b, NewId(a));
    NamedEntered(a, b, NewId(a) - 1);
    NotLiveNotNamed(a, NewId(a));
    RootsAre(a);
    RootsAre(b);
  }

  lemma NewDirs(a: A.Abs, kind: Kind)
    requires Creatable(a)
    ensures var r := NewId(a) - 1;
      r !in Dirs(a) && !Live(a, r + 1) && (WithNew(a, kind) == Dirs(a) || WithNew(a, kind) == Dirs(a)[r := []])
  {
    hide A.FirstUnused;
  }

  lemma RootsRemoved(a: A.Abs, b: A.Abs, id: nat)
    requires Tidy(a) && id > 0 && Dirs(b) == Dirs(a) - {id - 1} && b.files.Keys == a.files.Keys - {id - 1}
    ensures Roots(b) == Roots(a) + Ids(Listed(a, id)) - {id}
  {
    hide *;
    TidyParts(a);
    ListedIs(a, id);
    if id - 1 in Dirs(a) { ListedLive(a, id - 1); }
    EmptyList();
    OneLessLive(a, b, id);
    NamedWithout(a, b, id - 1);
    RootsAre(a);
    RootsAre(b);
  }

  lemma ListedIs(a: A.Abs, id: nat)
    requires id > 0
    ensures Listed(a, id) == if id - 1 in Dirs(a) then Dirs(a)[id - 1] else []
  {
  }

  /** After every call on a tidy volume, the roots are those that were foreseen. */
  lemma StepRoots(a: A.Abs, op: Op)
    requires Tidy(a)
    ensures D.SizesOk(a) && Roots(Step(a, op).0) == RootsAfter(a, op)
  {
    hide *;
    TidyParts(a);
    ProperSizes(a);
    LegalSize(a);
    StepState(a, op);
    RootsAfterIs(a, op);
    if op.MkHelper? {
      MkRoots(a, op.id, op.name, op.kind, op.now);
    } else if op.Unlink? {
      UnlinkRoots(a, op.id, op.name, op.now);
    } else if op.RemoveFile? {
      RemoveDirs(a, op.id);
      if Removable(a, op.id) { RootsRemoved(a, Step(a, op).0, op.id); }
    } else if op.AllocInode? {
      AllocDirs(a, op.kind, op.now);
      if Creatable(a) { RootsEntered(a, Step(a, op).0, op.kind); } else { RootsSame(a, Step(a, op).0); }
    } else if Written(a, op).Some? {
      WriteRoots(a, op.id, Written(a, op).value, op.now);
    }
  }

  lemma RootsAfterIs(a: A.Abs, op: Op)
    requires D.SizesOk(a) && BlockSizeOk(a.bs)
    ensures op.AllocInode? ==> RootsAfter(a, op) == if Creatable(a) then Roots(a) + {NewId(a)} else Roots(a)
    ensures op.MkHelper? ==> RootsAfter(a, op) == RootsMade(a, op.id, op.name, op.kind)
    ensures op.RemoveFile? ==>
      RootsAfter(a, op) == if Removable(a, op.id) then Roots(a) + Ids(Listed(a, op.id)) - {op.id} else Roots(a)
    ensures op.Unlink? ==> RootsAfter(a, op) == RootsLeft(a, op.id, op.name)
    ensures Written(a, op).Some? ==> RootsAfter(a, op) == RootsWritten(a, op.id, Written(a, op).value)
    ensures !op.AllocInode? && !op.RemoveFile? && !op.MkHelper? && !op.Unlink? && Written(a, op).None? ==>
      RootsAfter(a, op) == Roots(a)
  {
    hide Roots, RootsMade, RootsLeft, RootsWritten, Listed, Removable, Ids;
  }

  lemma WriteRoots(a: A.Abs, id: nat, text: Text, now: u64)
    requires Tidy(a) && BlockSizeOk(a.bs)
    ensures Roots(A.WriteFile(a, id, text, now).0) == RootsWritten(a, id, text)
  {
    hide *;
    var b := A.WriteFile(a, id, text, now).0;
    WriteDirs(a, id, text, now);
    RootsWrittenIs(a, id, text);
    if IsDirectory(a, id) && Writes(a, id, text) {
      InDirs(a, id);
      ListedIs(a, id);
      RootsStored(a, b, id - 1, Parse(text));
    } else {
      RootsSame(a, b);
    }
  }

  lemma MkRoots(a: A.Abs, id: nat, name: Text, kind: Kind, now: u64)
    requires Tidy(a) && D.SizesOk(a)
    ensures Roots(D.MkHelper(a, id, name, kind, now).0) == RootsMade(a, id, name, kind)
  {
    hide *;
    LegalSize(a);
    var b, c := A.AllocInode(a, kind, now).0, D.MkHelper(a, id, name, kind, now).0;
    MkDirs(a, id, name, kind, now);
    EntersIf(a, id, name, kind);
    RootsMadeIs(a, id, name, kind);
    if !MakesFile(a, id, name) {
      RootsSame(a, c);
    } else if !EntersDirectory(a, id, name, kind) {
      RootsEntered(a, c, kind);
    } else {
      AllocApplies(a, kind, now);
      FileMade(a, id, kind, now);
      AllocTidy(a, AllocChange(a, kind, now));
      AllocDirs(a, kind, now);
      RootsEntered(a, b, kind);
      NewListed(a, id, name, kind);
      var l, m := Listed(a, id), NewEntries(a, name);
      RootsStored(b, c, id - 1, l + m);
      ConcatIds(l, m);
      ListedNoRoot(b, id - 1);
    }
  }

  lemma ListedNoRoot(a: A.Abs, p: nat)
    requires p in Dirs(a)
    ensures Ids(Dirs(a)[p]) !! Roots(a)
  {
    RootsAre(a);
    assert forall id | id in Ids(Dirs(a)[p]) :: Named(a, id);
    hide Roots, Ids, Dirs;
  }

  lemma UnlinkRoots(a: A.Abs, id: nat, name: Text, now: u64)
    requires Tidy(a) && D.SizesOk(a) && BlockSizeOk(a.bs)
    ensures Roots(D.Unlink(a, id, name, now).0) == RootsLeft(a, id, name)
  {
    hide *;
    UnlinkDirs(a, id, name, now);
    RootsLeftIs(a, id, name);
    if RemovesTarget(a, id, name) {
      var b, t := D.Unlink(a, id, name, now).0, D.Lookup(a, id, name).value;
      if IsDirectory(a, id) {
        UnlinkAllOrNothing(a, id, name, now);
        UnlinkExact(a, id, name, now);
        var u := FoundEntry(a, id, name);
        TidyWithoutIds(a, id, name);
        RootsUnlinked(a, b, id - 1, Without(Dirs(a)[id - 1], name), t);
      } else {
        TargetFound(a, id, name);
        NotADirectory(a, t - 1);
        assert Dirs(a) - {t - 1} == Dirs(a);
        ListedIs(a, t);
        EmptyList();
        RootsRemoved(a, b, t);
      }
    }
  }

  lemma TidyWithoutIds(a: A.Abs, id: nat, name: Text)
    requires Tidy(a) && id > 0 && id - 1 in Dirs(a) && D.FindEntry(Dirs(a)[id - 1], name).Some?
    ensures Ids(Without(Dirs(a)[id - 1], name)) == Ids(Dirs(a)[id - 1]) - {D.FindEntry(Dirs(a)[id - 1], name).value}
  {
    WithoutIds(Dirs(a)[id - 1], name);
    hide Ids, Without, D.FindEntry, Dirs;
  }

  // ---- Every file lies below one root ----

  lemma {:induction false} NotTooMany(s: seq<nat>, u: set<nat>)
    requires forall i | 0 <= i < |s| :: s[i] in u
    requires forall i, j | 0 <= i < j < |s| :: s[i] != s[j]
    ensures |s| <= |u|
  {
    if s != [] {
      forall i | 0 <= i < |s[1..]| ensures s[1..][i] in u - {s[0]} { assert s[0] != s[i + 1]; }
      NotTooMany(s[1..], u - {s[0]});
    }
  }

  /** Without circles a way comes to no file twice. */
  lemma NoRepeats(dirs: map<nat, seq<Entry>>, s: seq<nat>)
    requires Acyclic(dirs) && Way(dirs, s)
    ensures forall i, j | 0 <= i < j < |s| :: s[i] != s[j]
  {
    hide Lists;
    forall i, j | 0 <= i < j < |s| ensures s[i] != s[j] {
      var c := s[i..j + 1];
      assert Way(dirs, c) && |c| > 1 && c[0] == s[i] && c[|c| - 1] == s[j];
    }
  }

  /** A way through a tidy volume is no longer than there are files. */
  lemma ShortWay(a: A.Abs, s: seq<nat>)
    requires Tidy(a) && Acyclic(Dirs(a)) && Way(Dirs(a), s) && Live(a, s[0])
    ensures |s| <= |a.files|
  {
    hide *;
    NoRepeats(Dirs(a), s);
    WayLive(a, s);
    var ids := set r | r in a.files.Keys :: r + 1;
    forall i | 0 <= i < |s| ensures s[i] in ids { LiveIs(a, s[i]); }
    NotTooMany(s, ids);
    SameCount(a.files.Keys, ids);
    assert |a.files.Keys| == |a.files|;
  }

  lemma LiveIs(a: A.Abs, id: nat)
    ensures Live(a, id) <==> 0 < id && id - 1 in a.files.Keys
  {
  }

  lemma WayLive(a: A.Abs, s: seq<nat>)
    requires Tidy(a) && Way(Dirs(a), s) && Live(a, s[0])
    ensures forall i | 0 <= i < |s| :: Live(a, s[i])
  {
    hide Tidy, Ids, Dirs, Named, Live;
    forall i | 0 <= i < |s| ensures Live(a, s[i]) {
      if i > 0 {
        assert Lists(Dirs(a), s[i - 1], s[i - 1 + 1]);
        ListedLive(a, s[i - 1] - 1);
      }
    }
  }

  lemma {:induction false} SameCount(keys: set<nat>, ids: set<nat>)
    requires ids == set r | r in keys :: r + 1
    ensures |ids| == |keys|
  {
    if keys != {} {
      var r :| r in keys;
      forall id | id in ids && id != r + 1 ensures id in set q | q in keys - {r} :: q + 1 {
        var q :| q in keys && id == q + 1;
        assert q in keys - {r};
      }
      SameCount(keys - {r}, ids - {r + 1});
    }
  }

  /** Going up from a file, by the directories that list it, ends at a root. */
  lemma {:induction false} GoUp(a: A.Abs, s: seq<nat>) returns (t: seq<nat>)
    requires Tidy(a) && Acyclic(Dirs(a)) && Way(Dirs(a), s) && Live(a, s[0])
    ensures Way(Dirs(a), t) && t[0] in Roots(a) && t[|t| - 1] == s[|s| - 1]
    decreases |a.files| - |s|
  {
    hide *;
    RootsAre(a);
    NotEmpty(Dirs(a), s);
    t := s;
    if Named(a, s[0]) {
      var x := ListedBy(a, s[0]);
      StepDown(Dirs(a), x, s);
      ShortWay(a, [x] + s);
      t := GoUp(a, [x] + s);
    }
  }

  lemma NotEmpty(dirs: map<nat, seq<Entry>>, s: seq<nat>)
    requires Way(dirs, s)
    ensures s != []
  {
  }

  lemma ListedBy(a: A.Abs, id: nat) returns (x: nat)
    requires Named(a, id)
    ensures Lists(Dirs(a), x, id) && Live(a, x)
  {
    var r :| r in Dirs(a) && id in Ids(Dirs(a)[r]);
    x := r + 1;
  }

  /** In a tidy volume without circles every file lies below a root, or is one: there is a way to it, ... */
  lemma RootAbove(a: A.Abs, id: nat)
    requires Tidy(a) && Acyclic(Dirs(a)) && Live(a, id)
    ensures exists s :: Way(Dirs(a), s) && s[0] in Roots(a) && s[|s| - 1] == id
  {
    var s := GoUp(a, [id]);
  }

  /** ... and only one: no file lies below two roots, or in two places. */
  lemma {:induction false} OneWay(a: A.Abs, s: seq<nat>, t: seq<nat>)
    requires Tidy(a) && Way(Dirs(a), s) && Way(Dirs(a), t) && s[|s| - 1] == t[|t| - 1]
    requires s[0] in Roots(a) && t[0] in Roots(a)
    ensures s == t
    decreases |s|
  {
    hide *;
    RootsAre(a);
    WayEnds(a, s);
    WayEnds(a, t);
    if |s| > 1 && |t| > 1 {
      OneParent(a, s[|s| - 2], t[|t| - 2], s[|s| - 1]);
      OneWay(a, s[..|s| - 1], t[..|t| - 1]);
      assert s == s[..|s| - 1] + [s[|s| - 1]] && t == t[..|t| - 1] + [t[|t| - 1]];
    } else {
      assert |s| == 1 ==> s == [s[0]];
      assert |t| == 1 ==> t == [t[0]];
    }
  }

  lemma WayEnds(a: A.Abs, s: seq<nat>)
    requires Way(Dirs(a), s)
    ensures s != []
    ensures |s| > 1 ==>
      && Lists(Dirs(a), s[|s| - 2], s[|s| - 1]) && Named(a, s[|s| - 1])
      && Way(Dirs(a), s[..|s| - 1]) && s[..|s| - 1][0] == s[0]
  {
    if |s| > 1 {
      assert Lists(Dirs(a), s[|s| - 2], s[|s| - 2 + 1]);
      var init := s[..|s| - 1];
      forall i | 0 <= i < |init| - 1 ensures Lists(Dirs(a), init[i], init[i + 1]) {
        assert Lists(Dirs(a), s[i], s[i + 1]);
      }
    }
    hide Dirs;
  }

  lemma OneParent(a: A.Abs, x: nat, y: nat, id: nat)
    requires Tidy(a) && Lists(Dirs(a), x, id) && Lists(Dirs(a), y, id)
    ensures x == y
  {
    hide Ids, Dirs, Proper, Printed;
  }
}
