/** What callers may rely on over runs of calls: files nobody touches stay, what was written is read back,
    and windows of files behave as windows of sequences. */
module FileLaws {
  import opened Bytes
  import opened Results
  import opened Bitmaps
  import opened Regions
  import opened Inodes
  import opened AbstractRuns
  import opened Outcomes
  import opened Accounting
  import FB = FileBlocks
  import A = AbstractFs
  import D = AbstractDirs

  // ---- Files that are left alone ----

  lemma ChangeFrame(a: A.Abs, c: Change, r: nat)
    requires Allowed(a, c) && r in a.files && !On(c, r)
    ensures r in Apply(a, c).files && Apply(a, c).files[r] == a.files[r]
  {
  }

  /** A live file keeps its kind, its bytes and its times through every call that does not touch it,
      whether the call succeeds or fails. */
  lemma StepFrame(a: A.Abs, op: Op, id: nat)
    requires D.SizesOk(a) && Live(a, id) && !Touches(a, op, id)
    ensures var b := Step(a, op).0; Live(b, id) && b.files[id - 1] == a.files[id - 1]
  {
    hide Step, Allowed, Touches, A.FirstUnused;
    var c, e := StepChanges(a, op);
    CreatesNew(a, op, id);
    assert !On(c, id - 1) && !On(e, id - 1);
    ChangeFrame(a, c, id - 1);
    ChangeFrame(Apply(a, c), e, id - 1);
  }

  lemma CreatesNew(a: A.Abs, op: Op, id: nat)
    requires Live(a, id)
    ensures !Creates(a, op, id)
  {
  }

  /** A file stays as it is over every run of calls that do not touch it. */
  lemma {:induction false} RunFrame(a: A.Abs, ops: seq<Op>, id: nat)
    requires D.SizesOk(a) && Live(a, id)
    requires forall i | 0 <= i < |ops| :: !Touches(StateAt(a, ops, i), ops[i], id)
    ensures var b := Run(a, ops).0; Live(b, id) && b.files[id - 1] == a.files[id - 1]
  {
    hide Step, Touches, Creates;
    if ops != [] {
      var init, last := ops[..|ops| - 1], ops[|ops| - 1];
      forall i | 0 <= i < |init| ensures !Touches(StateAt(a, init, i), init[i], id) { assert init[..i] == ops[..i]; }
      RunFrame(a, init, id);
      assert Run(a, init).0 == StateAt(a, ops, |init|);
      StepFrame(Run(a, init).0, last, id);
    }
  }

  /** What was written is read back after any number of calls that do not touch the file. */
  lemma ReadYourWrite(a: A.Abs, id: nat, content: seq<byte>, now: u64, ops: seq<Op>)
    requires D.SizesOk(a) && A.WriteFile(a, id, content, now).1.Ok?
    requires var b := A.WriteFile(a, id, content, now).0;
      D.SizesOk(b) && forall i | 0 <= i < |ops| :: !Touches(StateAt(b, ops, i), ops[i], id)
    ensures A.ReadFile(Run(A.WriteFile(a, id, content, now).0, ops).0, id) == Ok(content)
    ensures A.GetKind(Run(A.WriteFile(a, id, content, now).0, ops).0, id) == A.GetKind(a, id)
    ensures A.GetAttr(Run(A.WriteFile(a, id, content, now).0, ops).0, id) == Ok(Attr(now, now, now, |content|))
    ensures A.GetKind(a, id).Ok?
    ensures A.GetKindAttr(Run(A.WriteFile(a, id, content, now).0, ops).0, id)
      == Ok((A.GetKind(a, id).value, Attr(now, now, now, |content|)))
  {
    hide Step, Touches, CeilDiv, MaxFileSize, Run;
    RunFrame(A.WriteFile(a, id, content, now).0, ops, id);
  }

  // ---- Numbers without a file ----

  /** A number without a file gets one only from a call that creates the file with the least number not in
      use. */
  lemma StepDead(a: A.Abs, op: Op, id: nat)
    requires D.SizesOk(a) && !Live(a, id) && !Creates(a, op, id)
    ensures !Live(Step(a, op).0, id)
  {
    hide Step, Allowed, Touches, A.FirstUnused;
    var c, e := StepChanges(a, op);
    if id > 0 {
      ChangeDead(a, c, id - 1);
      ChangeDead(Apply(a, c), e, id - 1);
    }
  }

  lemma ChangeDead(a: A.Abs, c: Change, r: nat)
    requires Allowed(a, c) && r !in a.files && !(c.Enters? && c.r == r)
    ensures r !in Apply(a, c).files
  {
  }

  /** Removed files stay away: no call serves the number until a call creates a file under it. */
  lemma {:induction false} RunDead(a: A.Abs, ops: seq<Op>, id: nat)
    requires D.SizesOk(a) && !Live(a, id) && id > 0
    requires forall i | 0 <= i < |ops| :: !Creates(StateAt(a, ops, i), ops[i], id)
    ensures !Live(Run(a, ops).0, id) && A.ReadFile(Run(a, ops).0, id) == Err(InvalidArg)
  {
    hide Step, Creates;
    if ops != [] {
      var init, last := ops[..|ops| - 1], ops[|ops| - 1];
      forall i | 0 <= i < |init| ensures !Creates(StateAt(a, init, i), init[i], id) { assert init[..i] == ops[..i]; }
      RunDead(a, init, id);
      assert Run(a, init).0 == StateAt(a, ops, |init|);
      StepDead(Run(a, init).0, last, id);
    }
  }

  /** A new file is empty and is served exactly if its number is not one of the last two; its number is the
      least that was not in use. */
  lemma NewFile(a: A.Abs, kind: Kind, now: u64)
    requires Proper(a) && A.AllocInode(a, kind, now).1.Ok?
    ensures var (b, r) := A.AllocInode(a, kind, now);
      && !Live(a, r.value) && Live(b, r.value) && (forall i: nat | 0 < i < r.value :: Live(a, i))
      && A.ReadFile(b, r.value) == (if r.value < a.maxInodes - 1 then Ok([]) else Err(InvalidArg))
      && A.GetKindAttr(b, r.value)
         == (if r.value < a.maxInodes - 1 then Ok((kind, Attr(now, now, now, 0))) else Err(InvalidArg))
      && forall i: nat | Live(a, i) :: Live(b, i) && b.files[i - 1] == a.files[i - 1]
  {
    var r := A.AllocInode(a, kind, now).1.value;
    forall i: nat | 0 < i < r ensures Live(a, i) {
      if i - 1 !in a.files { A.FirstUnusedIsLeast(a.files, 0, a.maxInodes, i - 1); }
    }
  }

  /** `n` files, one after the other. */
  function Allocs(n: nat, kind: Kind, now: u64): (ops: seq<Op>)
    ensures |ops| == n
  {
    if n == 0 then [] else Allocs(n - 1, kind, now) + [AllocInode(kind, now)]
  }

  /** On a new volume the numbers are given out in order, the last two as well; those are never served. */
  lemma {:induction false} AllNumbersGivenOut(a: A.Abs, n: nat, kind: Kind, now: u64)
    requires Proper(a) && a.files == map[] && n <= a.maxInodes && n <= a.free
    ensures var (b, outs) := Run(a, Allocs(n, kind, now));
      && (forall i | 0 <= i < n :: outs[i] == Number(Ok(i + 1)))
      && (forall r: nat :: r in b.files <==> r < n) && b.free == a.free - n
      && forall id: nat | 0 < id <= n :: A.ReadFile(b, id).Ok? <==> id < a.maxInodes - 1
  {
    if n > 0 {
      AllNumbersGivenOut(a, n - 1, kind, now);
      var (b, outs) := Run(a, Allocs(n - 1, kind, now));
      assert Allocs(n, kind, now)[..n - 1] == Allocs(n - 1, kind, now);
      hide Step, A.ReadFile, A.FirstUnused, Proper;
      A.FirstUnusedIsLeast(b.files, 0, b.maxInodes, n - 1);
      AllocStep(a, b, outs, n, kind, now);
    }
  }

  lemma AllocStep(a: A.Abs, b: A.Abs, outs: seq<Outcome>, n: nat, kind: Kind, now: u64)
    requires D.SizesOk(b) && 0 < n <= b.maxInodes && n <= a.free
    requires b.free == a.free - (n - 1) && b.maxInodes == a.maxInodes
    requires (forall r: nat :: r in b.files <==> r < n - 1) && A.FirstUnused(b.files, 0, b.maxInodes) == Some(n - 1)
    ensures var (c, o) := Step(b, AllocInode(kind, now));
      && o == Number(Ok(n)) && (forall r: nat :: r in c.files <==> r < n) && c.free == a.free - n
      && forall id: nat | 0 < id <= n :: A.ReadFile(c, id).Ok? <==> id < a.maxInodes - 1
  {
  }

  /** On every new volume with room for it, a file one byte longer than its direct slots hold cannot be
      removed. */
  lemma IndirectRemoveFaults(a: A.Abs, content: seq<byte>, now: u64)
    requires Proper(a) && a.files == map[] && 3 <= a.maxInodes && Direct(a.bs) + 3 <= a.free
    requires |content| == Direct(a.bs) * a.bs + 1
    ensures Run(a, [AllocInode(Regular, now), WriteFile(1, content, now), RemoveFile(1)]).1
      == [Number(Ok(1)), Nothing(Ok(())), Nothing(Err(Fault))]
  {
    JustTooLong(a.bs, content);
    var b := a.(files := map[0 := A.AFile(Regular, [], now)], free := a.free - 1);
    var c := a.(files := map[0 := A.AFile(Regular, content, now)], free := a.free - Direct(a.bs) - 3);
    ThreeSteps(a, b, c, content, now);
    assert D.SizesOk(a) && D.SizesOk(b) && D.SizesOk(c);
    assert Step(a, AllocInode(Regular, now)) == (b, Number(Ok(1)));
    assert Step(b, WriteFile(1, content, now)) == (c, Nothing(Ok(())));
    assert Step(c, RemoveFile(1)) == (c, Nothing(Err(Fault)));
    hide *;
    ThreeCalls(a, AllocInode(Regular, now), WriteFile(1, content, now), RemoveFile(1));
  }

  lemma JustTooLong(bs: nat, content: seq<byte>)
    requires BlockSizeOk(bs) && |content| == Direct(bs) * bs + 1
    ensures A.Cost(bs, |content|) == Direct(bs) + 2 && A.Cost(bs, 0) == 0
    ensures CeilDiv(|content|, bs) == Direct(bs) + 1 && |content| <= MaxFileSize(bs)
  {
    EmptyCost(bs);
    CeilDivUnique(|content|, bs, Direct(bs) + 1) by { assert (Direct(bs) + 1) * bs == Direct(bs) * bs + bs; }
    FB.BlockLimit(|content|, bs);
  }

  lemma ThreeSteps(a: A.Abs, b: A.Abs, c: A.Abs, content: seq<byte>, now: u64)
    requires Proper(a) && a.files == map[] && 3 <= a.maxInodes && Direct(a.bs) + 3 <= a.free
    requires A.Cost(a.bs, |content|) == Direct(a.bs) + 2 && A.Cost(a.bs, 0) == 0
    requires CeilDiv(|content|, a.bs) == Direct(a.bs) + 1 && |content| <= MaxFileSize(a.bs)
    requires b == a.(files := map[0 := A.AFile(Regular, [], now)], free := a.free - 1)
    requires c == a.(files := map[0 := A.AFile(Regular, content, now)], free := a.free - Direct(a.bs) - 3)
    ensures A.AllocInode(a, Regular, now) == (b, Ok(1))
    ensures A.WriteFile(b, 1, content, now) == (c, Ok(()))
    ensures A.RemoveFile(c, 1) == (c, Err(Fault))
  {
    hide A.Cost, CeilDiv, Direct, MaxFileSize;
    assert a.files[0 := A.AFile(Regular, [], now)] == b.files;
    assert b.files[0 := A.AFile(Regular, content, now)] == c.files;
  }

  // ---- Failures ----

  /** Calls that change files even if they fail: making an entry once it has made the file, and unlinking
      once it has removed it. */
  predicate LeavesTrace(a: A.Abs, op: Op)
    requires BlockSizeOk(a.bs)
  {
    match op
    case MkHelper(id, name, _, _) => MakesFile(a, id, name)
    case Unlink(parent, name, _) => RemovesTarget(a, parent, name)
    case _ => false
  }

  /** A failed call leaves all files as they were exactly if it is none of those. Otherwise it leaves one new,
      empty file, or one file less. */
  lemma FailureKeepsFiles(a: A.Abs, op: Op)
    requires D.SizesOk(a) && Failure(Step(a, op).1).Some?
    ensures var b := Step(a, op).0;
      && (b.files == a.files <==> !LeavesTrace(a, op))
      && (op.MkHelper? && LeavesTrace(a, op) ==> b.files == a.files[NewId(a) - 1 := A.AFile(op.kind, [], op.now)])
      && (op.Unlink? && LeavesTrace(a, op) ==>
          D.Lookup(a, op.id, op.name).value > 0 && b.files == a.files - {D.Lookup(a, op.id, op.name).value - 1})
  {
    hide A.WriteFile, A.AllocInode, A.RemoveFile, A.ReadFile, D.Lookup, A.GetKind, D.MkHelper, D.Unlink,
      MakesFile, RemovesTarget;
    match op
    case AllocInode(kind, now) => AllocApplies(a, kind, now);
    case WriteFile(id, content, now) => WriteApplies(a, id, content, now);
    case WriteAt(id, data, off, now) =>
      if A.ReadFile(a, id).Ok? { WriteApplies(a, id, A.Overwritten(A.ReadFile(a, id).value, data, off), now); }
    case Resize(id, sz, now) =>
      if A.ReadFile(a, id).Ok? { WriteApplies(a, id, A.Resized(A.ReadFile(a, id).value, sz), now); }
    case RemoveFile(id) => RemoveApplies(a, id);
    case MkHelper(id, name, kind, now) => MkHelperExact(a, id, name, kind, now);
    case Unlink(parent, name, now) => UnlinkExact(a, parent, name, now);
    case _ =>
  }

  // ---- Windows ----

  /** Byte by byte: the window, the bytes from before, and zeros in a gap between them. */
  lemma OverwrittenAt(s: seq<byte>, data: seq<byte>, off: nat, i: nat)
    requires i < |A.Overwritten(s, data, off)|
    ensures |A.Overwritten(s, data, off)| == if off + |data| > |s| then off + |data| else |s|
    ensures A.Overwritten(s, data, off)[i]
      == if off <= i < off + |data| then data[i - off] else if i < |s| then s[i] else 0
  {
  }

  lemma ResizedAt(s: seq<byte>, n: nat, i: nat)
    requires i < n
    ensures A.Resized(s, n)[i] == if i < |s| then s[i] else 0
  {
  }

  /** Two windows side by side are as good as one. */
  lemma SplitWindow(s: seq<byte>, t: seq<byte>, u: seq<byte>, off: nat)
    ensures A.Overwritten(A.Overwritten(s, t, off), u, off + |t|) == A.Overwritten(s, t + u, off)
  {
  }

  /** Windows that do not overlap can be written in either order. */
  lemma WindowsCommute(s: seq<byte>, t: seq<byte>, p: nat, u: seq<byte>, q: nat)
    requires p + |t| <= q || q + |u| <= p
    ensures A.Overwritten(A.Overwritten(s, t, p), u, q) == A.Overwritten(A.Overwritten(s, u, q), t, p)
  {
    var v, w := A.Overwritten(s, t, p), A.Overwritten(s, u, q);
    var x, y := A.Overwritten(v, u, q), A.Overwritten(w, t, p);
    assert |x| == |y|;
    forall i | 0 <= i < |x| ensures x[i] == y[i] {
      OverwrittenAt(v, u, q, i);
      OverwrittenAt(w, t, p, i);
      if i < |v| { OverwrittenAt(s, t, p, i); }
      if i < |w| { OverwrittenAt(s, u, q, i); }
    }
  }

  /** Reading any window after a write at an offset gives that window of the overwritten bytes; the window
      that was written gives the data. */
  lemma ReadAfterWriteAt(a: A.Abs, id: nat, data: seq<byte>, off: nat, now: u64, sz: nat, at: nat)
    requires D.SizesOk(a) && A.WriteAt(a, id, data, off, now).1.Ok? && A.ReadFile(a, id).Ok?
    ensures var s, b := A.Overwritten(A.ReadFile(a, id).value, data, off), A.WriteAt(a, id, data, off, now).0;
      && A.ReadFile(b, id) == Ok(s)
      && A.ReadAt(b, id, sz, at) == (if at + sz <= |s| then Ok(s[at..at + sz]) else Err(Fault))
      && A.ReadAt(b, id, |data|, off) == Ok(data)
  {
  }

  /** Writing in two parts does what writing at once does, if there is room for that. */
  lemma WriteInParts(a: A.Abs, id: nat, t: seq<byte>, u: seq<byte>, off: nat, now: u64)
    requires Proper(a) && A.WriteAt(a, id, t + u, off, now).1.Ok?
    ensures var (b, r) := A.WriteAt(a, id, t, off, now);
      r == Ok(|t|) && A.WriteAt(b, id, u, off + |t|, now) == (A.WriteAt(a, id, t + u, off, now).0, Ok(|u|))
  {
    var s := A.ReadFile(a, id).value;
    var v, w := A.Overwritten(s, t, off), A.Overwritten(s, t + u, off);
    SplitWindow(s, t, u, off);
    CostMono(a.bs, |v|, |w|);
    TwoWrites(a, id, v, w, now);
    hide A.WriteFile, A.Overwritten, A.Cost, MaxFileSize;
  }

  /** Writing something shorter on the way makes no difference. */
  lemma TwoWrites(a: A.Abs, id: nat, v: seq<byte>, w: seq<byte>, now: u64)
    requires Proper(a) && A.WriteFile(a, id, w, now).1.Ok? && |v| <= |w| && A.Cost(a.bs, |v|) <= A.Cost(a.bs, |w|)
    ensures var (b, r) := A.WriteFile(a, id, v, now);
      && r == Ok(()) && b.bs == a.bs && A.ReadFile(b, id) == Ok(v)
      && A.WriteFile(b, id, w, now) == A.WriteFile(a, id, w, now)
  {
    hide A.Cost, MaxFileSize;
    var b := A.WriteFile(a, id, v, now).0;
    var f := A.AFile(a.files[id - 1].kind, w, now);
    assert b.files[id - 1 := f] == a.files[id - 1 := f];
  }

  /** Growing a file and cutting it again gives back its bytes and the blocks it took. */
  lemma ResizeBack(a: A.Abs, id: nat, sz: nat, now: u64, later: u64)
    requires Proper(a) && A.ResizeFile(a, id, sz, now).1.Ok? && A.ReadFile(a, id).Ok? && sz >= |A.ReadFile(a, id).value|
    ensures var s := A.ReadFile(a, id).value;
      var (b, r) := A.ResizeFile(A.ResizeFile(a, id, sz, now).0, id, |s|, later);
      r.Ok? && b.free == a.free && A.ReadFile(b, id) == Ok(s) && b.files.Keys == a.files.Keys
  {
  }

  /** Replacing the contents by longer ones and cutting the file to its old size gives back all blocks that
      took. */
  lemma GrowAndCut(a: A.Abs, id: nat, content: seq<byte>, now: u64, later: u64)
    requires Proper(a) && A.ReadFile(a, id).Ok? && A.WriteFile(a, id, content, now).1.Ok?
    requires |content| >= |A.ReadFile(a, id).value|
    ensures var sz := |A.ReadFile(a, id).value|;
      var (b, r) := A.ResizeFile(A.WriteFile(a, id, content, now).0, id, sz, later);
      r.Ok? && b.free == a.free && A.ReadFile(b, id) == Ok(content[..sz])
  {
    hide A.Cost, MaxFileSize;
    var sz := |A.ReadFile(a, id).value|;
    assert |content| == sz ==> content[..sz] == content;
  }
}
