/** Where the blocks of a volume go: what is free and what the files take adds up, over every run. */
module Accounting {
  import opened Bytes
  import opened Results
  import opened Bitmaps
  import opened Regions
  import opened Inodes
  import opened DirectoryText
  import opened AbstractRuns
  import opened Outcomes
  import FB = FileBlocks
  import A = AbstractFs
  import D = AbstractDirs

  /** The blocks of the files numbered below `n`: their inodes, their data, and their indirect blocks. */
  function Used(bs: nat, files: map<nat, A.AFile>, n: nat): nat
    requires BlockSizeOk(bs)
  {
    if n == 0 then 0 else Used(bs, files, n - 1) + Own(bs, files, n - 1)
  }

  /** The blocks that are free or belong to a file. */
  function Accounted(a: A.Abs): nat
    requires BlockSizeOk(a.bs)
  {
    a.free + Used(a.bs, a.files, a.maxInodes)
  }

  /** Only the file that differs makes a difference. */
  lemma {:induction false} UsedChange(bs: nat, files: map<nat, A.AFile>, others: map<nat, A.AFile>, r: nat, n: nat)
    requires BlockSizeOk(bs)
    requires forall q: nat | q != r :: q in files <==> q in others
    requires forall q | q != r && q in files :: files[q] == others[q]
    ensures Used(bs, others, n) == Used(bs, files, n) + if r < n then Own(bs, others, r) - Own(bs, files, r) else 0
  {
    hide A.Cost;
    if n > 0 { UsedChange(bs, files, others, r, n - 1); }
  }

  /** Each elementary change keeps the sum, except that some blocks may be lost. */
  lemma ChangeAccounts(a: A.Abs, c: Change)
    requires Proper(a) && Allowed(a, c)
    ensures Accounted(Apply(a, c)) == Accounted(a) - if c.Loses? then c.blocks else 0
  {
    if !c.Loses? {
      UsedChange(a.bs, a.files, Apply(a, c).files, c.r, a.maxInodes);
      EmptyCost(a.bs);
    }
    hide A.Cost, MaxFileSize;
  }

  lemma EmptyCost(bs: nat)
    requires BlockSizeOk(bs)
    ensures A.Cost(bs, 0) == 0
  {
  }

  lemma WriteAccounts(a: A.Abs, id: nat, content: seq<byte>, now: u64)
    requires Proper(a)
    ensures var b := A.WriteFile(a, id, content, now).0;
      b.bs == a.bs && Accounted(b) + WriteLoss(a, id, content) == Accounted(a)
  {
    WriteApplies(a, id, content, now);
    ChangeAccounts(a, WriteChange(a, id, content, now));
    hide Accounted, A.Cost, MaxFileSize;
  }

  lemma AllocAccounts(a: A.Abs, kind: Kind, now: u64)
    requires Proper(a)
    ensures var b := A.AllocInode(a, kind, now).0;
      b.bs == a.bs && Proper(b) && Accounted(b) + AllocLoss(a) == Accounted(a)
  {
    AllocApplies(a, kind, now);
    ChangeAccounts(a, AllocChange(a, kind, now));
    ChangeProper(a, AllocChange(a, kind, now));
    hide Accounted, Proper, Allowed;
  }

  lemma RemoveAccounts(a: A.Abs, id: nat)
    requires Proper(a)
    ensures var b := A.RemoveFile(a, id).0; b.bs == a.bs && Proper(b) && Accounted(b) == Accounted(a)
  {
    RemoveApplies(a, id);
    ChangeAccounts(a, RemoveChange(a, id));
    ChangeProper(a, RemoveChange(a, id));
    hide Accounted, Proper, Allowed;
  }

  lemma MkAccounts(a: A.Abs, op: Op)
    requires Proper(a) && op.MkHelper?
    ensures var b := D.MkHelper(a, op.id, op.name, op.kind, op.now).0;
      b.bs == a.bs && Accounted(b) + Lost(a, op) == Accounted(a)
  {
    FileMade(a, op.id, op.kind, op.now);
    MkWrites(a, op.id, op.name, op.kind, op.now);
    AllocAccounts(a, op.kind, op.now);
    if MakesFile(a, op.id, op.name) && ParentText(a, op.id).Ok? {
      var text := AppendToDirectory(ParentText(a, op.id).value, op.name, NewId(a));
      WriteAccounts(A.AllocInode(a, op.kind, op.now).0, op.id, text, op.now);
    }
    hide Accounted, Spent, D.MkHelper, D.Lookup, A.AllocInode, A.WriteFile, A.ReadFile, ParentText,
      AppendToDirectory, A.FirstUnused;
  }

  lemma UnlinkAccounts(a: A.Abs, op: Op)
    requires Proper(a) && op.Unlink?
    ensures var b := D.Unlink(a, op.id, op.name, op.now).0;
      b.bs == a.bs && Accounted(b) + Lost(a, op) == Accounted(a)
  {
    UnlinkWrites(a, op.id, op.name, op.now);
    if RemovesTarget(a, op.id, op.name) {
      var t := D.Lookup(a, op.id, op.name).value;
      TargetGone(a, op.id, op.name);
      RemoveAccounts(a, t);
      if t != op.id {
        WriteAccounts(A.RemoveFile(a, t).0, op.id, RmFromDirectory(A.ReadFile(a, op.id).value, op.name), op.now);
      }
    }
    hide Accounted, Spent, D.Unlink, D.Lookup, A.RemoveFile, A.WriteFile, A.ReadFile, A.GetKind,
      RmFromDirectory, RemovesTarget;
  }

  /** Only calls that run out of something lose blocks. */
  lemma OnlyFullLoses(a: A.Abs, op: Op)
    requires Proper(a)
    ensures var (b, o) := Step(a, op);
      b.bs == a.bs && (Failure(o) != Some(OutOfResource) ==> Accounted(b) == Accounted(a))
  {
    hide Step, Allowed, Accounted;
    StepSizes(a, op);
    var c, e := StepChanges(a, op);
    ChangeAccounts(a, c);
    ChangeProper(a, c);
    ChangeAccounts(Apply(a, c), e);
  }

  /** What is free and what the files take after a call, and what the call loses, is what there was before:
      no call gains blocks, and how many it loses can be told before it. */
  lemma StepAccounts(a: A.Abs, op: Op)
    requires Proper(a)
    ensures var b := Step(a, op).0;
      && b.bs == a.bs && Accounted(b) + Lost(a, op) == Accounted(a)
      && (Accounted(b) == Accounted(a) <==> !LosesBlocks(a, op))
      && (LosesBlocks(a, op) ==> Failure(Step(a, op).1) == Some(OutOfResource))
  {
    hide Accounted, A.WriteFile, A.AllocInode, A.RemoveFile, A.ReadFile, D.MkHelper, D.Unlink, D.Lookup,
      WriteLoss, AllocLoss;
    if op.AllocInode? {
      AllocAccounts(a, op.kind, op.now);
    } else if op.WriteFile? || op.WriteAt? || op.Resize? {
      WritesText(a, op);
      if Written(a, op).Some? { WriteAccounts(a, op.id, Written(a, op).value, op.now); }
    } else if op.RemoveFile? {
      RemoveAccounts(a, op.id);
    } else if op.MkHelper? {
      MkAccounts(a, op);
    } else if op.Unlink? {
      UnlinkAccounts(a, op);
    }
    OnlyFullLoses(a, op);
  }

  /** The blocks that a run loses. */
  function LostOver(a: A.Abs, ops: seq<Op>): nat
    requires D.SizesOk(a)
  {
    if ops == [] then 0 else LostOver(a, ops[..|ops| - 1]) + Lost(StateAt(a, ops, |ops| - 1), ops[|ops| - 1])
  }

  lemma {:induction false} NothingLost(a: A.Abs, ops: seq<Op>)
    requires D.SizesOk(a)
    ensures LostOver(a, ops) == 0 <==> forall i | 0 <= i < |ops| :: !LosesBlocks(StateAt(a, ops, i), ops[i])
  {
    hide Lost, Step, Run, StateAt;
    if ops != [] {
      var init := ops[..|ops| - 1];
      NothingLost(a, init);
      forall i | 0 <= i < |init| ensures StateAt(a, init, i) == StateAt(a, ops, i) { SameState(a, ops, i); }
    }
  }

  lemma SameState(a: A.Abs, ops: seq<Op>, i: nat)
    requires D.SizesOk(a) && i < |ops|
    ensures StateAt(a, ops[..|ops| - 1], i) == StateAt(a, ops, i)
  {
    assert ops[..|ops| - 1][..i] == ops[..i];
  }

  /** Conservation over runs: what is free, what the files take and what was lost on the way is what there
      was, and nothing was lost exactly if no call was one that loses blocks. */
  lemma {:induction false} RunAccounts(a: A.Abs, ops: seq<Op>)
    requires Proper(a)
    ensures var b := Run(a, ops).0;
      && Accounted(b) + LostOver(a, ops) == Accounted(a)
      && (Accounted(b) == Accounted(a) <==> forall i | 0 <= i < |ops| :: !LosesBlocks(StateAt(a, ops, i), ops[i]))
  {
    hide Step, Proper, Accounted, Lost, LosesBlocks;
    ProperSizes(a);
    NothingLost(a, ops);
    if ops != [] {
      var init := ops[..|ops| - 1];
      RunAccounts(a, init);
      RunProper(a, init);
      StepAccounts(Run(a, init).0, ops[|ops| - 1]);
    }
  }

  lemma {:induction false} NothingUsed(bs: nat, n: nat)
    requires BlockSizeOk(bs)
    ensures Used(bs, map[], n) == 0
  {
    if n > 0 { NothingUsed(bs, n - 1); }
  }

  /** On a new volume, the free blocks are exactly those that no file takes, exactly if no call of the run was
      one that loses blocks. */
  lemma FreeIsTheRest(a: A.Abs, ops: seq<Op>)
    requires Proper(a) && a.files == map[]
    ensures var b := Run(a, ops).0;
      b.free == a.free - Used(b.bs, b.files, b.maxInodes) <==>
      forall i | 0 <= i < |ops| :: !LosesBlocks(StateAt(a, ops, i), ops[i])
  {
    RunAccounts(a, ops);
    NothingUsed(a.bs, a.maxInodes);
    hide LosesBlocks, Run;
  }

  // ---- When a write succeeds ----

  lemma CostMono(bs: nat, n: nat, m: nat)
    requires BlockSizeOk(bs) && n <= m
    ensures A.Cost(bs, n) <= A.Cost(bs, m)
  {
    if CeilDiv(m, bs) < CeilDiv(n, bs) {
      FB.BlockStart(n, bs, CeilDiv(m, bs));
      CeilDivBounds(m, bs);
    }
    hide CeilDiv;
  }

  /** A write that does not make the file longer never fails. */
  lemma NoGrowthSucceeds(a: A.Abs, id: nat, content: seq<byte>, now: u64)
    requires Proper(a) && A.ReadFile(a, id).Ok? && |content| <= |A.ReadFile(a, id).value|
    ensures A.WriteFile(a, id, content, now).1 == Ok(())
  {
    CostMono(a.bs, |content|, |A.ReadFile(a, id).value|);
    hide A.Cost, MaxFileSize;
  }

  /** A successful write can always be taken back, whatever else is on the volume. */
  lemma WriteUndone(a: A.Abs, id: nat, content: seq<byte>, now: u64, later: u64)
    requires Proper(a) && A.ReadFile(a, id).Ok? && A.WriteFile(a, id, content, now).1.Ok?
    ensures var (b, r) := A.WriteFile(A.WriteFile(a, id, content, now).0, id, A.ReadFile(a, id).value, later);
      r == Ok(()) && b == a.(files := a.files[id - 1 := a.files[id - 1].(stamp := later)])
  {
  }

  /** Creating a file and removing it again leaves nothing behind, unless the file is not served. */
  lemma AllocUndone(a: A.Abs, kind: Kind, now: u64)
    requires Proper(a) && A.AllocInode(a, kind, now).1.Ok?
    ensures var (b, r) := A.AllocInode(a, kind, now);
      A.RemoveFile(b, r.value) == (if r.value < a.maxInodes - 1 then (a, Ok(())) else (b, Err(InvalidArg)))
  {
    EmptyCost(a.bs);
    var (b, r) := A.AllocInode(a, kind, now);
    assert r.value < a.maxInodes - 1 ==> b.files - {r.value - 1} == a.files;
    assert CeilDiv(0, a.bs) == 0;
    hide A.Cost, MaxFileSize;
  }

  // ---- Removing files ----

  /** Removing a served file works exactly if its data fits the direct slots: a file one byte longer has an
      indirect block, which the original reads into a buffer of no length. */
  lemma RemoveSucceeds(a: A.Abs, id: nat)
    requires BlockSizeOk(a.bs) && A.ReadFile(a, id).Ok?
    ensures var n := |A.ReadFile(a, id).value|;
      A.RemoveFile(a, id).1 == if n <= Direct(a.bs) * a.bs then Ok(()) else Err(Fault)
  {
    FB.BlockStart(|A.ReadFile(a, id).value|, a.bs, Direct(a.bs));
    hide CeilDiv, Direct;
  }

  /** It gives back the block of the inode and those of the data, and the inode number. */
  lemma RemoveFrees(a: A.Abs, id: nat)
    requires Proper(a) && A.RemoveFile(a, id).1.Ok?
    ensures var b := A.RemoveFile(a, id).0;
      && b.free == a.free + CeilDiv(|a.files[id - 1].content|, a.bs) + 1
      && A.FreeInodes(b) == A.FreeInodes(a) + 1
      && A.ReadFile(b, id) == Err(InvalidArg) && !Live(b, id)
      && forall i | i != id :: A.ReadFile(b, i) == A.ReadFile(a, i)
  {
  }
}
