/** Runs: what a sequence of calls does to the abstract file system, and what no call disturbs. */
module AbstractRuns {
  import opened Bytes
  import opened Results
  import opened Bitmaps
  import opened Inodes
  import opened DirectoryText
  import A = AbstractFs
  import D = AbstractDirs

  /** The calls. `Reopen` drops the handle and opens the device again. */
  datatype Op =
    | AllocInode(kind: Kind, now: u64)
    | WriteFile(id: nat, content: seq<byte>, now: u64)
    | WriteAt(id: nat, data: seq<byte>, off: nat, now: u64)
    | Resize(id: nat, sz: nat, now: u64)
    | RemoveFile(id: nat)
    | ReadFile(id: nat)
    | ReadAt(id: nat, sz: nat, off: nat)
    | GetTypeAttr(id: nat)
    | Lookup(id: nat, name: Text)
    | MkHelper(id: nat, name: Text, kind: Kind, now: u64)
    | Unlink(id: nat, name: Text, now: u64)
    | CountFree
    | Reopen

  datatype Outcome =
    | Nothing(r: Result<()>)
    | Number(n: Result<nat>)
    | Text(t: Result<seq<byte>>)
    | NewAttr(a: Result<Attr>)
    | KindAttr(ka: Result<(Kind, Attr)>)
    | Free(blocks: nat, inodes: int)

  /** The error a call came back with. */
  function Failure(o: Outcome): Option<Error> {
    match o
    case Nothing(Err(e)) => Some(e)
    case Number(Err(e)) => Some(e)
    case Text(Err(e)) => Some(e)
    case NewAttr(Err(e)) => Some(e)
    case KindAttr(Err(e)) => Some(e)
    case _ => None
  }

  function Step(a: A.Abs, op: Op): (A.Abs, Outcome)
    requires D.SizesOk(a)
  {
    match op
    case AllocInode(kind, now) => var (b, r) := A.AllocInode(a, kind, now); (b, Number(r))
    case WriteFile(id, content, now) => var (b, r) := A.WriteFile(a, id, content, now); (b, Nothing(r))
    case WriteAt(id, data, off, now) => var (b, r) := A.WriteAt(a, id, data, off, now); (b, Number(r))
    case Resize(id, sz, now) => var (b, r) := A.ResizeFile(a, id, sz, now); (b, NewAttr(r))
    case RemoveFile(id) => var (b, r) := A.RemoveFile(a, id); (b, Nothing(r))
    case ReadFile(id) => (a, Text(A.ReadFile(a, id)))
    case ReadAt(id, sz, off) => (a, Text(A.ReadAt(a, id, sz, off)))
    case GetTypeAttr(id) => (a, KindAttr(A.GetKindAttr(a, id)))
    case Lookup(id, name) => (a, Number(D.Lookup(a, id, name)))
    case MkHelper(id, name, kind, now) => var (b, r) := D.MkHelper(a, id, name, kind, now); (b, Number(r))
    case Unlink(id, name, now) => var (b, r) := D.Unlink(a, id, name, now); (b, Nothing(r))
    case CountFree => (a, Free(a.free, A.FreeInodes(a)))
    case Reopen => (a, Nothing(Ok(())))
  }

  /** What holds of every volume in use: inode numbers and sizes stay within their limits. */
  ghost predicate Proper(a: A.Abs) {
    && D.SizesOk(a) && 0 < a.maxInodes
    && forall r | r in a.files :: r < a.maxInodes && |a.files[r].content| <= MaxFileSize(a.bs)
  }

  /** File `id` is live, whether or not it is served. */
  predicate Live(a: A.Abs, id: nat) {
    0 < id && id - 1 in a.files
  }

  // ---- Elementary changes ----

  /** What one allocation, write or removal does to the files and the free blocks. */
  datatype Change =
    | Loses(blocks: nat)
    | Enters(r: nat, f: A.AFile)
    | Leaves(r: nat)
    | Stores(r: nat, f: A.AFile)

  /** Nothing happens. */
  const SAME := Loses(0)

  predicate On(c: Change, r: nat) {
    !c.Loses? && c.r == r
  }

  /** The blocks of inode number `r`, the one that holds its inode among them. */
  function Own(bs: nat, files: map<nat, A.AFile>, r: nat): nat
    requires BlockSizeOk(bs)
  {
    if r in files then 1 + A.Cost(bs, |files[r].content|) else 0
  }

  predicate Allowed(a: A.Abs, c: Change) {
    && BlockSizeOk(a.bs)
    && match c
       case Loses(n) => n <= a.free
       case Enters(r, f) => r < a.maxInodes && r !in a.files && f.content == [] && a.free > 0
       case Leaves(r) => r + 2 < a.maxInodes && r in a.files
       case Stores(r, f) =>
         && r + 2 < a.maxInodes && r in a.files && f.kind == a.files[r].kind && |f.content| <= MaxFileSize(a.bs)
         && A.Cost(a.bs, |f.content|) <= A.Cost(a.bs, |a.files[r].content|) + a.free
  }

  function Apply(a: A.Abs, c: Change): A.Abs
    requires Allowed(a, c)
  {
    match c
    case Loses(n) => a.(free := a.free - n)
    case Enters(r, f) => a.(files := a.files[r := f], free := a.free - 1)
    case Leaves(r) => a.(files := a.files - {r}, free := a.free + Own(a.bs, a.files, r))
    case Stores(r, f) =>
      a.(files := a.files[r := f], free := a.free + A.Cost(a.bs, |a.files[r].content|) - A.Cost(a.bs, |f.content|))
  }

  /** The change a write makes. */
  function WriteChange(a: A.Abs, id: nat, content: seq<byte>, now: u64): (c: Change)
    requires BlockSizeOk(a.bs)
  {
    var w := A.WriteFile(a, id, content, now);
    if w.1.Ok? then Stores(id - 1, A.AFile(a.files[id - 1].kind, content, now)) else Loses(a.free - w.0.free)
  }

  lemma WriteApplies(a: A.Abs, id: nat, content: seq<byte>, now: u64)
    requires BlockSizeOk(a.bs)
    ensures var c, w := WriteChange(a, id, content, now), A.WriteFile(a, id, content, now);
      && Allowed(a, c) && Apply(a, c) == w.0
      && (c.Stores? <==> w.1.Ok?) && (c.Stores? || c.Loses?) && (c.Stores? ==> c.r + 1 == id)
      && (c.Loses? && c.blocks > 0 ==> w.1 == Err(OutOfResource))
  {
  }

  function AllocChange(a: A.Abs, kind: Kind, now: u64): (c: Change)
  {
    match A.FirstUnused(a.files, 0, a.maxInodes)
    case Some(r) => if a.free == 0 then SAME else Enters(r, A.AFile(kind, [], now))
    case None => Loses(if a.free == 0 then 0 else 1)
  }

  lemma AllocApplies(a: A.Abs, kind: Kind, now: u64)
    requires BlockSizeOk(a.bs)
    ensures var c, w := AllocChange(a, kind, now), A.AllocInode(a, kind, now);
      && Allowed(a, c) && Apply(a, c) == w.0
      && (c.Enters? <==> w.1.Ok?) && (c.Enters? || c.Loses?) && (c.Enters? ==> w.1 == Ok(c.r + 1))
      && (c.Loses? && c.blocks > 0 ==> w.1 == Err(OutOfResource))
  {
  }

  function RemoveChange(a: A.Abs, id: nat): (c: Change)
    requires BlockSizeOk(a.bs)
  {
    if A.RemoveFile(a, id).1.Ok? then Leaves(id - 1) else SAME
  }

  lemma RemoveApplies(a: A.Abs, id: nat)
    requires BlockSizeOk(a.bs)
    ensures var c, w := RemoveChange(a, id), A.RemoveFile(a, id);
      && Allowed(a, c) && Apply(a, c) == w.0
      && (c.Leaves? <==> w.1.Ok?) && (c.Leaves? || c == SAME) && (c.Leaves? ==> c.r + 1 == id)
  {
  }

  /** `b` is `a` after the two changes. */
  ghost predicate Reached(a: A.Abs, c: Change, e: Change, b: A.Abs) {
    Allowed(a, c) && Allowed(Apply(a, c), e) && b == Apply(Apply(a, c), e)
  }

  /** Calls that may change file `id`. */
  predicate Touches(a: A.Abs, op: Op, id: nat) {
    match op
    case WriteFile(i, _, _) => i == id
    case WriteAt(i, _, _, _) => i == id
    case Resize(i, _, _) => i == id
    case RemoveFile(i) => i == id
    case MkHelper(i, _, _, _) => i == id
    case Unlink(i, name, _) => i == id || D.Lookup(a, i, name) == Ok(id)
    case _ => false
  }

  /** Calls that make file `id`: the one with the least number not in use. */
  predicate Creates(a: A.Abs, op: Op, id: nat) {
    && (op.AllocInode? || op.MkHelper?)
    && id > 0 && A.FirstUnused(a.files, 0, a.maxInodes) == Some(id - 1)
  }

  ghost predicate Explains(a: A.Abs, op: Op, b: A.Abs, o: Outcome, c: Change, e: Change) {
    && Reached(a, c, e, b)
    && (forall r: nat | On(c, r) || On(e, r) :: Touches(a, op, r + 1) || (c.Enters? && c.r == r))
    && (c.Enters? ==> Creates(a, op, c.r + 1)) && !e.Enters?
    && (c.Leaves? ==> op.RemoveFile? || op.Unlink?) && (c.Stores? ==> !op.RemoveFile?)
    && ((c.Loses? && c.blocks > 0) || (e.Loses? && e.blocks > 0) ==> Failure(o) == Some(OutOfResource))
  }

  /** One change, followed by none. */
  lemma Once(a: A.Abs, c: Change)
    requires Allowed(a, c)
    ensures Reached(a, c, SAME, Apply(a, c))
  {
  }

  lemma WriteAtChanges(a: A.Abs, op: Op) returns (c: Change)
    requires D.SizesOk(a) && op.WriteAt?
    ensures Explains(a, op, Step(a, op).0, Step(a, op).1, c, SAME)
  {
    hide A.WriteFile, WriteChange, A.Overwritten, Allowed, Apply, Reached;
    var w := A.WriteAt(a, op.id, op.data, op.off, op.now);
    c := SAME;
    Idle(a);
    if A.ReadFile(a, op.id).Ok? && op.off + |op.data| < 0x1_0000_0000_0000_0000 {
      var s := A.Overwritten(A.ReadFile(a, op.id).value, op.data, op.off);
      WriteApplies(a, op.id, s, op.now);
      c := WriteChange(a, op.id, s, op.now);
      Once(a, c);
    }
  }

  lemma Idle(a: A.Abs)
    requires BlockSizeOk(a.bs)
    ensures Allowed(a, SAME) && Apply(a, SAME) == a && Reached(a, SAME, SAME, a)
  {
  }

  lemma ResizeChanges(a: A.Abs, op: Op) returns (c: Change)
    requires D.SizesOk(a) && op.Resize?
    ensures Explains(a, op, Step(a, op).0, Step(a, op).1, c, SAME)
  {
    hide A.WriteFile, WriteChange, A.Resized, Allowed, Apply, Reached, A.GetAttr;
    c := SAME;
    Idle(a);
    if A.GetAttr(a, op.id).Ok? && A.ReadFile(a, op.id).Ok? && |A.ReadFile(a, op.id).value| != op.sz {
      var s := A.Resized(A.ReadFile(a, op.id).value, op.sz);
      WriteApplies(a, op.id, s, op.now);
      c := WriteChange(a, op.id, s, op.now);
      Once(a, c);
    }
  }

  lemma MkChanges(a: A.Abs, op: Op) returns (c: Change, e: Change)
    requires D.SizesOk(a) && op.MkHelper?
    ensures Explains(a, op, Step(a, op).0, Step(a, op).1, c, e)
  {
    hide A.WriteFile, A.AllocInode, WriteChange, AllocChange, A.ReadFile, D.Lookup, AppendToDirectory, Allowed,
      Apply, Reached, A.FirstUnused;
    c, e := SAME, SAME;
    Idle(a);
    if D.Lookup(a, op.id, op.name).Err? {
      AllocApplies(a, op.kind, op.now);
      c := AllocChange(a, op.kind, op.now);
      AllocCreates(a, op, c);
      Once(a, c);
      var (b, r) := A.AllocInode(a, op.kind, op.now);
      if r.Ok? && A.ReadFile(b, op.id).Ok? {
        KeepsSizes(a, c);
        var s := AppendToDirectory(A.ReadFile(b, op.id).value, op.name, r.value);
        WriteApplies(b, op.id, s, op.now);
        e := WriteChange(b, op.id, s, op.now);
        Twice(a, c, e);
      }
    }
  }

  lemma AllocCreates(a: A.Abs, op: Op, c: Change)
    requires (op.AllocInode? || op.MkHelper?) && c == AllocChange(a, op.kind, op.now)
    ensures c.Enters? ==> Creates(a, op, c.r + 1)
  {
  }

  lemma KeepsSizes(a: A.Abs, c: Change)
    requires D.SizesOk(a) && Allowed(a, c)
    ensures Apply(a, c).bs == a.bs && Apply(a, c).maxInodes == a.maxInodes && D.SizesOk(Apply(a, c))
    ensures c.Enters? ==> c.r < a.maxInodes
  {
  }

  lemma Twice(a: A.Abs, c: Change, e: Change)
    requires Allowed(a, c) && Allowed(Apply(a, c), e)
    ensures Reached(a, c, e, Apply(Apply(a, c), e))
  {
  }

  lemma UnlinkChanges(a: A.Abs, op: Op) returns (c: Change, e: Change)
    requires D.SizesOk(a) && op.Unlink?
    ensures Explains(a, op, Step(a, op).0, Step(a, op).1, c, e)
  {
    hide A.WriteFile, A.RemoveFile, WriteChange, RemoveChange, A.ReadFile, D.Lookup, A.GetKind,
      RmFromDirectory, Allowed, Apply, Reached;
    c, e := SAME, SAME;
    Idle(a);
    var t := D.Lookup(a, op.id, op.name);
    if t.Ok? && A.GetKind(a, t.value).Ok? && A.GetKind(a, t.value).value != Directory {
      RemoveApplies(a, t.value);
      c := RemoveChange(a, t.value);
      Once(a, c);
      var (b, r) := A.RemoveFile(a, t.value);
      if r.Ok? && A.ReadFile(b, op.id).Ok? {
        KeepsSizes(a, c);
        var s := RmFromDirectory(A.ReadFile(b, op.id).value, op.name);
        WriteApplies(b, op.id, s, op.now);
        e := WriteChange(b, op.id, s, op.now);
        Twice(a, c, e);
      }
    }
  }

  /** Every call makes at most two elementary changes, to files it has to do with. */
  lemma StepChanges(a: A.Abs, op: Op) returns (c: Change, e: Change)
    requires D.SizesOk(a)
    ensures Explains(a, op, Step(a, op).0, Step(a, op).1, c, e)
    ensures !op.MkHelper? && !op.Unlink? ==> e == SAME
  {
    c, e := SAME, SAME;
    if op.WriteAt? {
      c := WriteAtChanges(a, op);
    } else if op.Resize? {
      c := ResizeChanges(a, op);
    } else if op.MkHelper? {
      c, e := MkChanges(a, op);
    } else if op.Unlink? {
      c, e := UnlinkChanges(a, op);
    } else {
      c := PlainChange(a, op);
    }
  }

  lemma PlainChange(a: A.Abs, op: Op) returns (c: Change)
    requires D.SizesOk(a) && !op.WriteAt? && !op.Resize? && !op.MkHelper? && !op.Unlink?
    ensures Explains(a, op, Step(a, op).0, Step(a, op).1, c, SAME)
  {
    hide A.WriteFile, A.AllocInode, A.RemoveFile, A.ReadFile, WriteChange, AllocChange, RemoveChange, Allowed,
      Apply, Reached;
    c := SAME;
    Idle(a);
    if op.AllocInode? {
      AllocApplies(a, op.kind, op.now);
      c := AllocChange(a, op.kind, op.now);
      AllocCreates(a, op, c);
    } else if op.WriteFile? {
      WriteApplies(a, op.id, op.content, op.now);
      c := WriteChange(a, op.id, op.content, op.now);
    } else if op.RemoveFile? {
      RemoveApplies(a, op.id);
      c := RemoveChange(a, op.id);
    }
    Once(a, c);
  }

  lemma StepSizes(a: A.Abs, op: Op)
    requires D.SizesOk(a)
    ensures var b := Step(a, op).0; D.SizesOk(b) && b.bs == a.bs && b.maxInodes == a.maxInodes
  {
    hide Step, Allowed;
    var c, e := StepChanges(a, op);
    KeepsSizes(a, c);
    KeepsSizes(Apply(a, c), e);
  }

  /** Inode numbers and sizes stay within their limits. */
  lemma StepProper(a: A.Abs, op: Op)
    requires Proper(a)
    ensures Proper(Step(a, op).0)
  {
    hide Step, Allowed, Proper;
    assert D.SizesOk(a) by { ProperSizes(a); }
    var c, e := StepChanges(a, op);
    ChangeProper(a, c);
    ChangeProper(Apply(a, c), e);
  }

  lemma ProperSizes(a: A.Abs)
    requires Proper(a)
    ensures D.SizesOk(a)
  {
  }

  lemma ChangeProper(a: A.Abs, c: Change)
    requires Proper(a) && Allowed(a, c)
    ensures Proper(Apply(a, c))
  {
  }

  // ---- Runs ----

  /** The state after a sequence of calls, and what each of them returned. */
  function Run(a: A.Abs, ops: seq<Op>): (r: (A.Abs, seq<Outcome>))
    requires D.SizesOk(a)
    ensures D.SizesOk(r.0) && r.0.bs == a.bs && r.0.maxInodes == a.maxInodes && |r.1| == |ops|
  {
    if ops == [] then (a, [])
    else
      var (b, outs) := Run(a, ops[..|ops| - 1]);
      StepSizes(b, ops[|ops| - 1]);
      var (c, o) := Step(b, ops[|ops| - 1]);
      (c, outs + [o])
  }

  /** The state before call `i` of a run. */
  function StateAt(a: A.Abs, ops: seq<Op>, i: nat): A.Abs
    requires D.SizesOk(a) && i <= |ops|
  {
    Run(a, ops[..i]).0
  }

  lemma StateAtEnds(a: A.Abs, ops: seq<Op>)
    requires D.SizesOk(a)
    ensures StateAt(a, ops, 0) == a && StateAt(a, ops, |ops|) == Run(a, ops).0
  {
    hide Step;
    assert ops[..0] == [] && ops[..|ops|] == ops;
  }

  /** Running on. */
  lemma RunStep(a: A.Abs, ops: seq<Op>, i: nat)
    requires D.SizesOk(a) && i < |ops|
    ensures D.SizesOk(StateAt(a, ops, i)) && StateAt(a, ops, i + 1) == Step(StateAt(a, ops, i), ops[i]).0
    ensures Run(a, ops[..i + 1]).1 == Run(a, ops[..i]).1 + [Step(StateAt(a, ops, i), ops[i]).1]
  {
    hide Step;
    assert ops[..i + 1][..i] == ops[..i];
  }

  lemma RunLast(a: A.Abs, ops: seq<Op>, x: Op)
    requires D.SizesOk(a)
    ensures D.SizesOk(Run(a, ops).0)
    ensures var (b, o) := Step(Run(a, ops).0, x); Run(a, ops + [x]) == (b, Run(a, ops).1 + [o])
  {
    hide Step;
    assert (ops + [x])[..|ops|] == ops;
  }

  /** Running two sequences one after the other. */
  lemma {:induction false} RunConcat(a: A.Abs, s: seq<Op>, t: seq<Op>)
    requires D.SizesOk(a)
    ensures Run(a, s + t) == (Run(Run(a, s).0, t).0, Run(a, s).1 + Run(Run(a, s).0, t).1)
  {
    hide Step;
    if t == [] {
      assert s + t == s && Run(a, s).1 + [] == Run(a, s).1;
    } else {
      var init, last := t[..|t| - 1], t[|t| - 1];
      assert (s + t)[..|s + t| - 1] == s + init && (s + t)[|s + t| - 1] == last;
      RunConcat(a, s, init);
      var (b, outs) := Run(Run(a, s).0, init);
      var o := Step(b, last).1;
      assert Run(a, s).1 + outs + [o] == Run(a, s).1 + (outs + [o]);
    }
  }

  /** A run from its first call on. */
  lemma RunFirst(a: A.Abs, x: Op, t: seq<Op>)
    requires D.SizesOk(a)
    ensures D.SizesOk(Step(a, x).0)
    ensures Run(a, [x] + t) == (Run(Step(a, x).0, t).0, [Step(a, x).1] + Run(Step(a, x).0, t).1)
  {
    hide Step;
    StepSizes(a, x);
    var o := Step(a, x).1;
    assert [x][..0] == [] && [x][..1] == [x] && [] + [o] == [o];
    RunStep(a, [x], 0);
    RunConcat(a, [x], t);
  }

  lemma NoCalls(a: A.Abs)
    requires D.SizesOk(a)
    ensures Run(a, []) == (a, [])
  {
  }

  lemma TwoCalls(a: A.Abs, x: Op, y: Op)
    requires D.SizesOk(a)
    ensures D.SizesOk(Step(a, x).0)
    ensures Run(a, [x, y]) == (Step(Step(a, x).0, y).0, [Step(a, x).1, Step(Step(a, x).0, y).1])
  {
    hide Step;
    RunFirst(a, x, [y]);
    RunFirst(Step(a, x).0, y, []);
    NoCalls(Step(Step(a, x).0, y).0);
    var o, p := Step(a, x).1, Step(Step(a, x).0, y).1;
    assert [x, y] == [x] + [y] && [y] == [y] + [] && [p] + [] == [p] && [o] + [p] == [o, p];
  }

  lemma ThreeCalls(a: A.Abs, x: Op, y: Op, z: Op)
    requires D.SizesOk(a)
    ensures var b := Step(a, x).0; D.SizesOk(b) && D.SizesOk(Step(b, y).0)
    ensures var (b, o) := Step(a, x); var (c, p) := Step(b, y); var (d, q) := Step(c, z);
      Run(a, [x, y, z]) == (d, [o, p, q])
  {
    hide Step;
    RunFirst(a, x, [y, z]);
    TwoCalls(Step(a, x).0, y, z);
    var o, p := Step(a, x).1, Step(Step(a, x).0, y).1;
    var q := Step(Step(Step(a, x).0, y).0, z).1;
    assert [x, y, z] == [x] + [y, z] && [o] + [p, q] == [o, p, q];
  }

  lemma FourCalls(a: A.Abs, x: Op, y: Op, z: Op, u: Op)
    requires D.SizesOk(a)
    ensures var b := Step(a, x).0; D.SizesOk(b) && D.SizesOk(Step(b, y).0) && D.SizesOk(Step(Step(b, y).0, z).0)
    ensures var (b, o) := Step(a, x); var (c, p) := Step(b, y); var (d, q) := Step(c, z); var (e, r) := Step(d, u);
      Run(a, [x, y, z, u]) == (e, [o, p, q, r])
  {
    hide Step;
    RunFirst(a, x, [y, z, u]);
    ThreeCalls(Step(a, x).0, y, z, u);
    var outs := Run(Step(a, x).0, [y, z, u]).1;
    assert [x, y, z, u] == [x] + [y, z, u];
    assert [Step(a, x).1] + outs == [Step(a, x).1, outs[0], outs[1], outs[2]];
  }

  lemma {:induction false} RunProper(a: A.Abs, ops: seq<Op>)
    requires Proper(a)
    ensures D.SizesOk(a) && Proper(Run(a, ops).0)
  {
    hide Step, Proper;
    ProperSizes(a);
    if ops != [] {
      RunProper(a, ops[..|ops| - 1]);
      StepProper(Run(a, ops[..|ops| - 1]).0, ops[|ops| - 1]);
    }
  }
}
