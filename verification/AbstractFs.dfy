/** The file system as its callers see it: numbered files with a kind, bytes and a time stamp, and a
    count of free blocks. Inode `r` here is inode `r + 1` for the callers. */
module AbstractFs {
  import opened Bytes
  import opened Results
  import opened Bitmaps
  import opened Regions
  import opened Inodes

  datatype AFile = AFile(kind: Kind, content: seq<byte>, stamp: u64)

  datatype Abs = Abs(bs: nat, maxInodes: nat, files: map<nat, AFile>, free: nat)

  /** Data blocks and, past the direct ones, the indirect block. */
  function CostOf(bs: nat, blocks: nat): nat
    requires BlockSizeOk(bs)
  {
    blocks + if blocks > Direct(bs) then 1 else 0
  }

  /** The blocks a file of `size` bytes takes besides the one for its inode. */
  function Cost(bs: nat, size: nat): nat
    requires BlockSizeOk(bs)
  {
    CostOf(bs, CeilDiv(size, bs))
  }

  /** The bytes of `s` cut, or filled up with zeros, to length `n`. */
  function Resized(s: seq<byte>, n: nat): (r: seq<byte>)
    ensures |r| == n
  {
    if n <= |s| then s[..n] else s + seq(n - |s|, _ => 0)
  }

  /** `s` with `data` written from `off` on, a gap in between filled with zeros. */
  function Overwritten(s: seq<byte>, data: seq<byte>, off: nat): seq<byte> {
    Splice(if off + |data| > |s| then Resized(s, off + |data|) else s, off, data)
  }

  /** The inode number behind `id`. The last two are never served. */
  function Resolve(a: Abs, id: nat): Result<nat> {
    if id >= a.maxInodes - 1 then Err(InvalidArg)
    else if id == 0 then Err(Fault)
    else if id - 1 !in a.files then Err(InvalidArg)
    else Ok(id - 1)
  }

  function FirstUnused(files: map<nat, AFile>, r: nat, n: nat): (o: Option<nat>)
    ensures o.Some? ==> r <= o.value < n && o.value !in files
    decreases n - r
  {
    if r >= n then None else if r !in files then Some(r) else FirstUnused(files, r + 1, n)
  }

  /** The first unused number is the least one. */
  lemma {:induction false} FirstUnusedIsLeast(files: map<nat, AFile>, r: nat, n: nat, k: nat)
    requires r <= k < n && k !in files
    ensures var o := FirstUnused(files, r, n); o.Some? && o.value <= k
    decreases n - r
  {
    if r in files { FirstUnusedIsLeast(files, r + 1, n, k); }
  }

  function FreeInodes(a: Abs): int {
    a.maxInodes - |a.files|
  }

  /** Running out of blocks is an exception; running out of inodes keeps the block that was taken. */
  function AllocInode(a: Abs, kind: Kind, now: u64): (Abs, Result<nat>) {
    if a.free == 0 then (a, Err(Thrown))
    else match FirstUnused(a.files, 0, a.maxInodes)
      case None => (a.(free := a.free - 1), Err(OutOfResource))
      case Some(r) => (a.(files := a.files[r := AFile(kind, [], now)], free := a.free - 1), Ok(r + 1))
  }

  function GetAttr(a: Abs, id: nat): Result<Attr> {
    match Resolve(a, id)
    case Err(e) => Err(e)
    case Ok(r) => var f := a.files[r]; Ok(Attr(f.stamp, f.stamp, f.stamp, |f.content|))
  }

  function GetKindAttr(a: Abs, id: nat): Result<(Kind, Attr)> {
    match Resolve(a, id)
    case Err(e) => Err(e)
    case Ok(r) => var f := a.files[r]; Ok((f.kind, Attr(f.stamp, f.stamp, f.stamp, |f.content|)))
  }

  function GetKind(a: Abs, id: nat): Result<Kind> {
    match Resolve(a, id)
    case Err(e) => Err(e)
    case Ok(r) => Ok(a.files[r].kind)
  }

  function ReadFile(a: Abs, id: nat): Result<seq<byte>> {
    match Resolve(a, id)
    case Err(e) => Err(e)
    case Ok(r) => Ok(a.files[r].content)
  }

  /** A write that runs out of blocks keeps the blocks it took: none is left free. */
  function WriteFile(a: Abs, id: nat, content: seq<byte>, now: u64): (Abs, Result<()>)
    requires BlockSizeOk(a.bs)
  {
    match Resolve(a, id)
    case Err(e) => (a, Err(e))
    case Ok(r) =>
      var need: int := Cost(a.bs, |content|) - Cost(a.bs, |a.files[r].content|);
      if |content| > MaxFileSize(a.bs) then (a, Err(OutOfResource))
      else if need > a.free then (a.(free := 0), Err(OutOfResource))
      else (a.(files := a.files[r := AFile(a.files[r].kind, content, now)], free := a.free - need), Ok(()))
  }

  /** A window that ends past the largest 64-bit offset makes the original copy outside its buffer. */
  function WriteAt(a: Abs, id: nat, data: seq<byte>, off: nat, now: u64): (Abs, Result<nat>)
    requires BlockSizeOk(a.bs)
  {
    match ReadFile(a, id)
    case Err(e) => (a, Err(e))
    case Ok(s) =>
      if off + |data| >= 0x1_0000_0000_0000_0000 then (a, Err(Fault)) else
      var w := WriteFile(a, id, Overwritten(s, data, off), now);
      (w.0, if w.1.Ok? then Ok(|data|) else Err(w.1.error))
  }

  /** A window that reaches past the end makes the original read outside its buffer. */
  function ReadAt(a: Abs, id: nat, sz: nat, off: nat): Result<seq<byte>> {
    match ReadFile(a, id)
    case Err(e) => Err(e)
    case Ok(s) => if off + sz <= |s| then Ok(s[off..off + sz]) else Err(Fault)
  }

  /** The attributes returned are those from before, with the new size. */
  function ResizeFile(a: Abs, id: nat, sz: nat, now: u64): (Abs, Result<Attr>)
    requires BlockSizeOk(a.bs)
  {
    match (GetAttr(a, id), ReadFile(a, id))
    case (Ok(attr), Ok(s)) =>
      if |s| == sz then (a, Ok(attr))
      else
        var w := WriteFile(a, id, Resized(s, sz), now);
        (w.0, if w.1.Ok? then Ok(attr.(size := sz)) else Err(w.1.error))
    case (Err(e), _) => (a, Err(e))
    case (_, Err(e)) => (a, Err(e))
  }

  /** Removing a file that needs an indirect block makes the original read that block into an empty
      buffer. */
  function RemoveFile(a: Abs, id: nat): (Abs, Result<()>)
    requires BlockSizeOk(a.bs)
  {
    match Resolve(a, id)
    case Err(e) => (a, Err(e))
    case Ok(r) =>
      var n := CeilDiv(|a.files[r].content|, a.bs);
      if n > Direct(a.bs) then (a, Err(Fault))
      else (a.(files := a.files - {r}, free := a.free + 1 + n), Ok(()))
  }
}
