/** What a caller can know before a call: whether an entry can be made or unlinked, what a failed call leaves
    behind, and how many blocks a call loses. */
module Outcomes {
  import opened Bytes
  import opened Results
  import opened Bitmaps
  import opened Regions
  import opened Inodes
  import opened DirectoryText
  import opened AbstractRuns
  import FB = FileBlocks
  import A = AbstractFs
  import D = AbstractDirs

  // ---- Room for contents ----

  /** A file of `was` bytes can be given `len` bytes with `free` blocks. */
  predicate Fits(bs: nat, was: nat, len: nat, free: nat)
    requires BlockSizeOk(bs)
  {
    len <= MaxFileSize(bs) && A.Cost(bs, len) <= A.Cost(bs, was) + free
  }

  /** The blocks that are lost if such a write runs out; one that is refused for its size loses none. */
  function Spent(bs: nat, was: nat, len: nat, free: nat): nat
    requires BlockSizeOk(bs)
  {
    if len <= MaxFileSize(bs) && A.Cost(bs, len) > A.Cost(bs, was) + free then free else 0
  }

  /** What a write to a served file does, from its old and new length. */
  lemma WriteOutcome(a: A.Abs, id: nat, content: seq<byte>, now: u64)
    requires BlockSizeOk(a.bs) && A.ReadFile(a, id).Ok?
    ensures var (b, r) := A.WriteFile(a, id, content, now);
      var was := |A.ReadFile(a, id).value|;
      && (r.Ok? <==> Fits(a.bs, was, |content|, a.free))
      && (r.Err? ==> r == Err(OutOfResource) && b == a.(free := a.free - Spent(a.bs, was, |content|, a.free)))
      && (r.Ok? ==>
          id > 0 && id - 1 in a.files && b.files == a.files[id - 1 := A.AFile(a.files[id - 1].kind, content, now)])
  {
  }

  /** A file is served, and can be given these contents. */
  predicate Writes(a: A.Abs, id: nat, text: seq<byte>)
    requires BlockSizeOk(a.bs)
  {
    A.ReadFile(a, id).Ok? && Fits(a.bs, |A.ReadFile(a, id).value|, |text|, a.free)
  }

  /** The contents that a call writes to the file it names, if it is one that writes. */
  function Written(a: A.Abs, op: Op): (text: Option<seq<byte>>)
    ensures text.Some? ==> op.WriteFile? || op.WriteAt? || op.Resize?
  {
    match op
    case WriteFile(_, content, _) => Some(content)
    case WriteAt(id, data, off, _) =>
      if A.ReadFile(a, id).Ok? && off + |data| < 0x1_0000_0000_0000_0000
      then Some(A.Overwritten(A.ReadFile(a, id).value, data, off)) else None
    case Resize(id, sz, _) =>
      if A.ReadFile(a, id).Ok? && |A.ReadFile(a, id).value| != sz
      then Some(A.Resized(A.ReadFile(a, id).value, sz)) else None
    case _ => None
  }

  /** Every call that writes is one write of known contents. */
  lemma WritesText(a: A.Abs, op: Op)
    requires D.SizesOk(a) && (op.WriteFile? || op.WriteAt? || op.Resize?)
    ensures var text := Written(a, op);
      Step(a, op).0 == if text.Some? then A.WriteFile(a, op.id, text.value, op.now).0 else a
  {
    hide A.WriteFile, A.Resized, A.Overwritten;
  }

  // ---- Room for a file ----

  /** A block and a number are left. */
  predicate Creatable(a: A.Abs) {
    a.free > 0 && A.FirstUnused(a.files, 0, a.maxInodes).Some?
  }

  /** The id a new file would get. */
  function NewId(a: A.Abs): (id: nat)
    requires Creatable(a)
    ensures 0 < id <= a.maxInodes && id - 1 !in a.files
  {
    A.FirstUnused(a.files, 0, a.maxInodes).value + 1
  }

  /** No more numbers are in use than there are, and as many only if all are. */
  lemma {:induction false} CountNumbers(files: map<nat, A.AFile>, n: nat)
    requires forall r | r in files :: r < n
    ensures |files| <= n && (|files| == n <==> forall r: nat | r < n :: r in files)
  {
    if n == 0 {
      assert files == map[];
    } else {
      var rest := files - {n - 1};
      CountNumbers(rest, n - 1);
      assert files.Keys == rest.Keys + if n - 1 in files then {n - 1} else {};
      assert |files.Keys| == |files| && |rest.Keys| == |rest|;
      if n - 1 in files && forall r: nat | r < n - 1 :: r in rest {
        forall r: nat | r < n ensures r in files { if r < n - 1 { assert r in rest; } }
      }
      if forall r: nat | r < n :: r in files {
        forall r: nat | r < n - 1 ensures r in rest {}
      }
    }
  }

  /** A number is left exactly if the counter of free inodes says so. */
  lemma NumberLeft(a: A.Abs)
    requires Proper(a)
    ensures A.FirstUnused(a.files, 0, a.maxInodes).Some? <==> A.FreeInodes(a) > 0
  {
    CountNumbers(a.files, a.maxInodes);
    if r: nat :| r < a.maxInodes && r !in a.files {
      A.FirstUnusedIsLeast(a.files, 0, a.maxInodes, r);
    }
    hide MaxFileSize, A.FirstUnused;
  }

  // ---- Making entries ----

  /** The text of the parent once the new file is there: the file itself is empty. */
  function ParentText(a: A.Abs, id: nat): Result<seq<byte>>
    requires Creatable(a)
  {
    if id != NewId(a) then A.ReadFile(a, id) else if id < a.maxInodes - 1 then Ok([]) else Err(InvalidArg)
  }

  /** A file is made: the name is not found, and a block and a number are left. */
  predicate MakesFile(a: A.Abs, id: nat, name: Text) {
    D.Lookup(a, id, name).Err? && Creatable(a)
  }

  /** The entry can be written, with the blocks that are left then. */
  predicate EntryFits(a: A.Abs, id: nat, name: Text)
    requires D.SizesOk(a) && Creatable(a)
  {
    match ParentText(a, id)
    case Err(_) => false
    case Ok(s) => Fits(a.bs, |s|, |AppendToDirectory(s, name, NewId(a))|, a.free - 1)
  }

  /** The blocks that making an entry loses: one if there is no number for it, or all that are left if the
      text runs out of them. */
  function MkLoss(a: A.Abs, id: nat, name: Text): nat
    requires D.SizesOk(a)
  {
    if D.Lookup(a, id, name).Ok? then 0
    else if !Creatable(a) then AllocLoss(a)
    else
      match ParentText(a, id)
      case Err(_) => 0
      case Ok(s) => Spent(a.bs, |s|, |AppendToDirectory(s, name, NewId(a))|, a.free - 1)
  }

  /** The block an allocation loses if no number is left. */
  function AllocLoss(a: A.Abs): nat {
    if a.free > 0 && !Creatable(a) then 1 else 0
  }

  /** The error of making an entry that cannot be made. */
  function MkError(a: A.Abs, id: nat, name: Text): Error {
    if D.Lookup(a, id, name).Ok? then AlreadyExist
    else if a.free == 0 then Thrown
    else if Creatable(a) && ParentText(a, id).Err? then ParentText(a, id).error
    else OutOfResource
  }

  /** What allocating the inode gives. */
  lemma FileMade(a: A.Abs, id: nat, kind: Kind, now: u64)
    requires D.SizesOk(a)
    ensures var (b, r) := A.AllocInode(a, kind, now);
      && (r.Ok? <==> Creatable(a)) && D.SizesOk(b) && b.bs == a.bs
      && (r.Err? ==> b == a.(free := a.free - AllocLoss(a)) && r == Err(if a.free == 0 then Thrown else OutOfResource))
      && (r.Ok? ==>
          && r.value == NewId(a) && b.files == a.files[NewId(a) - 1 := A.AFile(kind, [], now)]
          && b.free == a.free - 1 && A.ReadFile(b, id) == ParentText(a, id))
  {
  }

  /** Making an entry, as one write after the allocation. */
  lemma MkWrites(a: A.Abs, id: nat, name: Text, kind: Kind, now: u64)
    requires D.SizesOk(a)
    ensures !MakesFile(a, id, name) ==>
      D.MkHelper(a, id, name, kind, now)
      == if D.Lookup(a, id, name).Ok? then (a, Err(AlreadyExist)) else A.AllocInode(a, kind, now)
    ensures MakesFile(a, id, name) ==>
      var b := A.AllocInode(a, kind, now).0;
      match ParentText(a, id)
      case Err(e) => D.MkHelper(a, id, name, kind, now) == (b, Err(e))
      case Ok(s) =>
        && A.ReadFile(b, id) == Ok(s) && D.SizesOk(b)
        && var w := A.WriteFile(b, id, AppendToDirectory(s, name, NewId(a)), now);
        D.MkHelper(a, id, name, kind, now) == (w.0, if w.1.Ok? then Ok(NewId(a)) else Err(w.1.error))
  {
    FileMade(a, id, kind, now);
    hide D.Lookup, A.AllocInode, A.ReadFile, A.WriteFile, AppendToDirectory, ParentText, A.FirstUnused;
  }

  /** Making an entry succeeds exactly if the name is not found, a block and a number are left, the parent
      can be read and the longer text fits it. If it fails the files are as before exactly if no file was
      made; otherwise the new, empty file stays. */
  lemma MkHelperExact(a: A.Abs, id: nat, name: Text, kind: Kind, now: u64)
    requires D.SizesOk(a)
    ensures var (b, r) := D.MkHelper(a, id, name, kind, now);
      && (r.Ok? <==> MakesFile(a, id, name) && EntryFits(a, id, name)) && (r.Ok? ==> r == Ok(NewId(a)))
      && (r.Err? ==> r.error == MkError(a, id, name))
      && (r.Err? ==> (b.files == a.files <==> !MakesFile(a, id, name)))
      && (r.Err? && MakesFile(a, id, name) ==> b.files == a.files[NewId(a) - 1 := A.AFile(kind, [], now)])
      && (r.Err? ==> b.free + MkLoss(a, id, name) + (if MakesFile(a, id, name) then 1 else 0) == a.free)
  {
    FileMade(a, id, kind, now);
    MkWrites(a, id, name, kind, now);
    if MakesFile(a, id, name) && ParentText(a, id).Ok? {
      WriteOutcome(A.AllocInode(a, kind, now).0, id, AppendToDirectory(ParentText(a, id).value, name, NewId(a)), now);
    }
    hide D.MkHelper, D.Lookup, A.AllocInode, A.ReadFile, A.WriteFile, AppendToDirectory, ParentText,
      A.FirstUnused, Fits, Spent;
  }

  // ---- Unlinking ----

  /** A served file whose data fits the direct slots. */
  predicate Removable(a: A.Abs, id: nat)
    requires BlockSizeOk(a.bs)
  {
    A.ReadFile(a, id).Ok? && |A.ReadFile(a, id).value| <= Direct(a.bs) * a.bs
  }

  /** The file goes: the name is found and leads to a served file, not a directory, whose data fits the
      direct slots. */
  predicate RemovesTarget(a: A.Abs, parent: nat, name: Text)
    requires BlockSizeOk(a.bs)
  {
    match D.Lookup(a, parent, name)
    case Err(_) => false
    case Ok(t) => A.GetKind(a, t).Ok? && A.GetKind(a, t).value != Directory && Removable(a, t)
  }

  /** The entry can go too: the file was not its own parent, and the new text fits with the blocks the file
      gave back. */
  predicate EntryGoes(a: A.Abs, parent: nat, name: Text)
    requires BlockSizeOk(a.bs) && RemovesTarget(a, parent, name)
  {
    var t, s := D.Lookup(a, parent, name).value, A.ReadFile(a, parent).value;
    t != parent && Fits(a.bs, |s|, |RmFromDirectory(s, name)|, FreeAfter(a, t))
  }

  /** The free blocks once file `t` is removed. */
  function FreeAfter(a: A.Abs, t: nat): nat
    requires BlockSizeOk(a.bs) && A.ReadFile(a, t).Ok?
  {
    a.free + 1 + A.Cost(a.bs, |A.ReadFile(a, t).value|)
  }

  /** The blocks that unlinking loses: all that are free after the removal, if the text runs out of them. */
  function UnlinkLoss(a: A.Abs, parent: nat, name: Text): nat
    requires BlockSizeOk(a.bs)
  {
    if !RemovesTarget(a, parent, name) || D.Lookup(a, parent, name).value == parent then 0
    else
      var t, s := D.Lookup(a, parent, name).value, A.ReadFile(a, parent).value;
      Spent(a.bs, |s|, |RmFromDirectory(s, name)|, FreeAfter(a, t))
  }

  /** The error of an unlinking that fails. */
  function UnlinkError(a: A.Abs, parent: nat, name: Text): Error
    requires BlockSizeOk(a.bs)
  {
    match D.Lookup(a, parent, name)
    case Err(e) => e
    case Ok(t) =>
      if A.GetKind(a, t).Err? then A.GetKind(a, t).error
      else if A.GetKind(a, t).value == Directory then NotEmpty
      else if !RemovesTarget(a, parent, name) then Fault
      else if t == parent then InvalidArg
      else OutOfResource
  }

  /** What removing the file gives, if unlinking gets that far. */
  lemma TargetGone(a: A.Abs, parent: nat, name: Text)
    requires D.SizesOk(a) && D.Lookup(a, parent, name).Ok?
    ensures var t := D.Lookup(a, parent, name).value; var (m, r) := A.RemoveFile(a, t);
      && (A.GetKind(a, t).Ok? && A.GetKind(a, t).value != Directory ==> (r.Ok? <==> RemovesTarget(a, parent, name)))
      && (r.Err? ==> m == a)
      && (r.Err? && A.GetKind(a, t).Ok? ==> r == Err(Fault))
      && (r.Ok? ==>
          && r == Ok(()) && D.SizesOk(m) && m.bs == a.bs && A.ReadFile(a, t).Ok? && m.free == FreeAfter(a, t)
          && t > 0 && t - 1 in a.files && m.files == a.files - {t - 1}
          && A.ReadFile(m, parent) == if t == parent then Err(InvalidArg) else A.ReadFile(a, parent))
  {
    var t := D.Lookup(a, parent, name).value;
    if A.ReadFile(a, t).Ok? { FB.BlockStart(|A.ReadFile(a, t).value|, a.bs, Direct(a.bs)); }
    hide D.Lookup, CeilDiv, Direct;
  }

  /** Unlinking, as one write after the removal. */
  lemma UnlinkWrites(a: A.Abs, parent: nat, name: Text, now: u64)
    requires D.SizesOk(a)
    ensures !RemovesTarget(a, parent, name) ==> D.Unlink(a, parent, name, now) == (a, Err(UnlinkError(a, parent, name)))
    ensures RemovesTarget(a, parent, name) ==>
      var t := D.Lookup(a, parent, name).value; var (m, r) := A.RemoveFile(a, t);
      && r.Ok? && D.SizesOk(m)
      && if t == parent then D.Unlink(a, parent, name, now) == (m, Err(InvalidArg))
         else
           && A.ReadFile(a, parent).Ok? && A.ReadFile(m, parent) == A.ReadFile(a, parent)
           && D.Unlink(a, parent, name, now)
              == A.WriteFile(m, parent, RmFromDirectory(A.ReadFile(a, parent).value, name), now)
  {
    if D.Lookup(a, parent, name).Ok? { TargetGone(a, parent, name); }
    FoundReads(a, parent, name);
    hide D.Lookup, A.GetKind, A.RemoveFile, A.ReadFile, A.WriteFile, RmFromDirectory, Direct;
  }

  lemma FoundReads(a: A.Abs, parent: nat, name: Text)
    ensures D.Lookup(a, parent, name).Ok? ==> A.ReadFile(a, parent).Ok?
  {
  }

  /** Unlinking succeeds exactly if the file can go and its entry too. If it fails the files are as before
      exactly if the file could not go; otherwise the file is gone and its entry, if the parent is not the
      file itself, still there. */
  lemma UnlinkExact(a: A.Abs, parent: nat, name: Text, now: u64)
    requires D.SizesOk(a)
    ensures var (b, r) := D.Unlink(a, parent, name, now);
      && (r.Ok? <==> RemovesTarget(a, parent, name) && EntryGoes(a, parent, name))
      && (r.Err? ==> r.error == UnlinkError(a, parent, name))
      && (r.Err? ==> (b.files == a.files <==> !RemovesTarget(a, parent, name)))
      && (!RemovesTarget(a, parent, name) ==> b == a)
      && (r.Err? && RemovesTarget(a, parent, name) ==>
          var t := D.Lookup(a, parent, name).value;
          && Live(a, t) && b.files == a.files - {t - 1}
          && b.free + UnlinkLoss(a, parent, name) == FreeAfter(a, t))
  {
    UnlinkWrites(a, parent, name, now);
    if RemovesTarget(a, parent, name) {
      TargetGone(a, parent, name);
      var t := D.Lookup(a, parent, name).value;
      if t != parent {
        WriteOutcome(A.RemoveFile(a, t).0, parent, RmFromDirectory(A.ReadFile(a, parent).value, name), now);
      }
    }
    hide D.Unlink, D.Lookup, A.GetKind, A.RemoveFile, A.ReadFile, A.WriteFile, RmFromDirectory, Direct, Fits, Spent;
  }

  // ---- What calls cost ----

  /** The blocks a write loses. */
  function WriteLoss(a: A.Abs, id: nat, content: seq<byte>): nat
    requires BlockSizeOk(a.bs)
  {
    match A.ReadFile(a, id)
    case Err(_) => 0
    case Ok(s) => Spent(a.bs, |s|, |content|, a.free)
  }

  /** The blocks a call loses: afterwards they are neither free nor of any file. */
  function Lost(a: A.Abs, op: Op): nat
    requires D.SizesOk(a)
  {
    match op
    case AllocInode(_, _) => AllocLoss(a)
    case MkHelper(id, name, _, _) => MkLoss(a, id, name)
    case Unlink(parent, name, _) => UnlinkLoss(a, parent, name)
    case _ => if Written(a, op).Some? then WriteLoss(a, op.id, Written(a, op).value) else 0
  }

  /** Known before the call: whether it will lose blocks. */
  predicate LosesBlocks(a: A.Abs, op: Op)
    requires D.SizesOk(a)
  {
    Lost(a, op) > 0
  }
}
