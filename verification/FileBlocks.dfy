/** Files as rows of blocks: how the blocks of a file hold its bytes, how a block list grows and shrinks
    in memory, and what that means for the volume. */
module FileBlocks {
  import opened Bytes
  import opened Results
  import opened Bitmaps
  import opened BlockDevice
  import opened Regions
  import opened Inodes
  import opened InodeManagers
  import opened Layout
  import A = AbstractFs

  /** How much of a file of `size` bytes its first `k` blocks hold. */
  function Upto(size: nat, bs: nat, k: nat): nat {
    if k * bs <= size then k * bs else size
  }

  /** Block `k` of a file starts inside the file exactly if the file has that many blocks. */
  lemma BlockStart(size: nat, bs: nat, k: nat)
    requires bs > 0
    ensures k * bs < size <==> k < CeilDiv(size, bs)
    ensures k * bs / bs == k
    ensures (k + 1) * bs == k * bs + bs
  {
    RowColDivMod(k * bs, bs);
    RowColAt(k, 0, bs);
    CeilDivBounds(size, bs);
    if k < CeilDiv(size, bs) {
      MulMono(k, CeilDiv(size, bs) - 1, bs);
    } else {
      MulMono(CeilDiv(size, bs), k, bs);
    }
  }

  /** A file within the size limit has no more blocks than the slots of an inode and one indirect block
      can name. */
  lemma BlockLimit(size: nat, bs: nat)
    requires BlockSizeOk(bs)
    ensures size <= MaxFileSize(bs) <==> CeilDiv(size, bs) <= Direct(bs) + Entries(bs)
    ensures MaxFileSize(bs) < 0x1_0000_0000_0000_0000
  {
    var m := Direct(bs) + Entries(bs);
    assert m * bs == MaxFileSize(bs);
    BlockStart(size, bs, m);
    assert m < 0x800_0000;
    MulMono(m, 0x800_0000, bs);
  }

  lemma FlattenTake(d: Disk, ids: seq<nat>, k: nat)
    requires k < |ids|
    ensures Flatten(d, ids[..k + 1]) == Flatten(d, ids[..k]) + BlockAt(d, ids[k])
  {
    assert ids[..k + 1][..k] == ids[..k];
  }

  /** The size of the part of the file in the block that starts at `pos`. */
  function PartSize(size: nat, bs: nat, pos: nat): nat {
    if pos + bs < size then bs else if pos <= size then size - pos else 0
  }

  lemma NextPart(size: nat, bs: nat, k: nat)
    requires bs > 0
    ensures Upto(size, bs, 0) == 0 && Upto(size, bs, k) <= size
    ensures Upto(size, bs, k) < size ==>
      && k < CeilDiv(size, bs) && Upto(size, bs, k) == k * bs && Upto(size, bs, k) / bs == k
      && Upto(size, bs, k + 1) == Upto(size, bs, k) + PartSize(size, bs, Upto(size, bs, k))
    ensures Upto(size, bs, k) == size && k <= CeilDiv(size, bs) ==> k == CeilDiv(size, bs)
  {
    BlockStart(size, bs, k);
  }

  lemma PartRead(s: seq<byte>, t: seq<byte>, bs: nat, size: nat, pos: nat, next: nat)
    requires |s| == pos < size && |t| == bs && next == pos + PartSize(size, bs, pos)
    ensures Take(s + t, next) == Take(s, pos) + t[..PartSize(size, bs, pos)]
  {
  }

  /** Reading block `k` extends what was read by its part of the file. */
  lemma BlockRead(d: Disk, bs: nat, ids: seq<nat>, size: nat, k: nat)
    requires bs > 0 && Sized(d, bs) && k < |ids| && forall i | 0 <= i < |ids| :: ids[i] < |d|
    requires Upto(size, bs, k) < size
    ensures Take(Flatten(d, ids[..k + 1]), Upto(size, bs, k + 1))
         == Take(Flatten(d, ids[..k]), Upto(size, bs, k)) + d[ids[k]][..PartSize(size, bs, Upto(size, bs, k))]
  {
    NextPart(size, bs, k);
    FlattenLength(d, bs, ids[..k]);
    FlattenTake(d, ids, k);
    PartRead(Flatten(d, ids[..k]), d[ids[k]], bs, size, Upto(size, bs, k), Upto(size, bs, k + 1));
  }

  // ---- A file in memory ----

  /** The indirect block of `f` as far as it is needed: in buffer `t` once that is loaded, until then on
      the device. */
  ghost predicate TableIn(bs: nat, d: Disk, t: seq<byte>, f: File)
    requires BlockSizeOk(bs)
  {
    if |f.data| <= Direct(bs) then t == []
    else |t| in {0, bs} && f.ind < |d| && TableRep(bs, if t == [] then d[f.ind] else t, f)
  }

  /** Buffer `s` holds the inode of `f`, and `t` or the device its indirect block. */
  ghost predicate InMemory(g: Geo, d: Disk, s: Block, t: seq<byte>, f: File)
    requires g.Valid()
  {
    InodeRep(g.BlockSize(), s, f) && TableIn(g.BlockSize(), d, t, f) && BlocksOk(g, f)
  }

  lemma BlocksInMemory(g: Geo, d: Disk, s: Block, t: seq<byte>, f: File)
    requires g.Valid() && InMemory(g, d, s, t, f)
    ensures BlocksOk(g, f) && InodeRep(g.BlockSize(), s, f) && TableIn(g.BlockSize(), d, t, f)
  {
  }

  /** The free blocks are data blocks, and none of them belongs to `f`. */
  ghost predicate Apart(g: Geo, d: Disk, f: File)
    requires g.Valid() && g.Fits(d)
  {
    && Owned(g.BlockSize(), f) !! g.Free(d)
    && forall b | b in g.Free(d) :: g.DataStart() <= b < g.Total()
  }

  /** Changes to the block bitmap do not reach the indirect block. */
  lemma StillInMemory(g: Geo, d: Disk, s: Block, t: seq<byte>, f: File, e: Disk)
    requires g.Valid() && InMemory(g, d, s, t, f) && |d| == g.Total()
    requires SameOutside(d, e, g.blockMap.start, g.DataStart())
    ensures InMemory(g, e, s, t, f)
  {
    if |f.data| > Direct(g.BlockSize()) {
      assert f.ind in Owned(g.BlockSize(), f);
    }
  }

  lemma DataInRange(g: Geo, f: File)
    requires g.Valid() && BlocksOk(g, f)
    ensures forall i | 0 <= i < |f.data| :: g.DataStart() <= f.data[i] < g.Total()
    ensures |f.data| > Direct(g.BlockSize()) ==> g.DataStart() <= f.ind < g.Total()
  {
    var bs := g.BlockSize();
    forall i | 0 <= i < |f.data| ensures g.DataStart() <= f.data[i] < g.Total() {
      assert f.data[i] in Owned(bs, f);
    }
    if |f.data| > Direct(bs) { assert f.ind in Owned(bs, f); }
  }

  /** `h` is `f` with new blocks, which are those that `free` has and `left` no longer has. */
  ghost predicate Grown(g: Geo, f: File, h: File, free: set<nat>, left: set<nat>)
    requires g.Valid()
  {
    && h == f.(data := h.data, ind := h.ind) && f.data <= h.data
    && left <= free && Owned(g.BlockSize(), h) == Owned(g.BlockSize(), f) + (free - left)
    && |free| - |left| == A.CostOf(g.BlockSize(), |h.data|) - A.CostOf(g.BlockSize(), |f.data|)
  }

  lemma Accounted(g: Geo, f: File, h: File, free: set<nat>, left: set<nat>)
    requires g.Valid() && BlocksOk(g, f) && BlocksOk(g, h)
    requires Owned(g.BlockSize(), f) !! free && left <= free
    requires Owned(g.BlockSize(), h) == Owned(g.BlockSize(), f) + (free - left)
    ensures |free| - |left| == A.CostOf(g.BlockSize(), |h.data|) - A.CostOf(g.BlockSize(), |f.data|)
  {
    OwnedCount(g.BlockSize(), f);
    OwnedCount(g.BlockSize(), h);
    var taken := free - left;
    assert free == left + taken;
    assert |Owned(g.BlockSize(), f) + taken| == |Owned(g.BlockSize(), f)| + |taken|;
  }

  /** Block `id`, and the indirect block if it is new, taken from the free ones. */
  lemma OneMore(g: Geo, f: File, id: nat, h: File, free: set<nat>, left: set<nat>)
    requires g.Valid() && BlocksOk(g, f) && |f.data| < Direct(g.BlockSize()) + Entries(g.BlockSize())
    requires Owned(g.BlockSize(), f) !! free && forall b | b in free :: g.DataStart() <= b < g.Total()
    requires h == f.(data := f.data + [id], ind := h.ind) && id in free
    requires |f.data| == Direct(g.BlockSize()) ==> h.ind in free - {id} && left == free - {id} - {h.ind}
    requires |f.data| != Direct(g.BlockSize()) ==> h.ind == f.ind && left == free - {id}
    ensures Grown(g, f, h, free, left)
  {
    GrownBy(g, f, id, h.ind, h);
    Accounted(g, f, h, free, left);
  }

  lemma AtMostOne(s: set<nat>, x: nat)
    requires s - {x} == {}
    ensures |s| <= 1
  {
    assert s <= {x};
    if x in s { assert s == {x}; } else { assert s == {}; }
  }

  lemma SlotsAppended(bs: nat, f: File, id: nat, h: File)
    requires BlockSizeOk(bs) && |f.data| < Direct(bs) && h == f.(data := f.data + [id])
    ensures forall j | 0 <= j < NBlocks(bs) :: SlotOf(bs, h, j) == if j == |f.data| then id else SlotOf(bs, f, j)
  {
  }

  lemma ShownInd(bs: nat, s: Block, f: File)
    requires InodeRep(bs, s, f)
    ensures Slot(s, NBlocks(bs) - 1) == f.ind
  {
  }

  lemma ShownSlot(bs: nat, s: Block, f: File, k: nat)
    requires InodeRep(bs, s, f) && k < |f.data|
    ensures k < Direct(bs) ==> Slot(s, k) == f.data[k]
    ensures Slot(s, NBlocks(bs) - 1) == f.ind
  {
  }

  /** The next block to drop is not free yet. */
  lemma DropNext(g: Geo, f: File, free: set<nat>, lo: nat, k: nat)
    requires g.Valid() && BlocksOk(g, f) && Owned(g.BlockSize(), f) !! free && lo <= k < |f.data|
    ensures f.data[k] !in free + Elements(f.data[lo..k])
    ensures Elements(f.data[lo..k + 1]) == Elements(f.data[lo..k]) + {f.data[k]}
  {
  }

  lemma TrimmedFree(g: Geo, f: File, n: nat, free: set<nat>, left: set<nat>)
    requires g.Valid() && BlocksOk(g, f) && Owned(g.BlockSize(), f) !! free && n <= |f.data|
    requires left == free + Elements(f.data[n..]) + if |f.data| > Direct(g.BlockSize()) >= n then {f.ind} else {}
    ensures Reblocked(g, f, Trimmed(g.BlockSize(), f, n), free, left)
  {
    TrimmedOk(g, f, n);
  }

  lemma TableEntry(bs: nat, t: Block, f: File, k: nat)
    requires TableRep(bs, t, f) && Direct(bs) <= k < |f.data|
    ensures 8 * (k - Direct(bs)) + 8 <= |t| && Entry(t, k - Direct(bs)) == f.data[k]
  {
  }

  lemma GrownNot(g: Geo, f: File, free: set<nat>)
    requires g.Valid()
    ensures Grown(g, f, f, free, free)
  {
  }

  lemma GrownCost(g: Geo, f: File, h: File, free: set<nat>, left: set<nat>)
    requires g.Valid() && Grown(g, f, h, free, left)
    ensures A.CostOf(g.BlockSize(), |h.data|) - A.CostOf(g.BlockSize(), |f.data|) <= |free|
  {
  }

  /** Too few free blocks for one more block are too few for all that are missing. */
  lemma Short(g: Geo, f: File, h: File, free: set<nat>, left: set<nat>, n: nat)
    requires g.Valid() && Grown(g, f, h, free, left) && |h.data| < n
    requires |left| < A.CostOf(g.BlockSize(), |h.data| + 1) - A.CostOf(g.BlockSize(), |h.data|)
    ensures |free| < A.CostOf(g.BlockSize(), n) - A.CostOf(g.BlockSize(), |f.data|)
  {
  }

  /** Data blocks past the direct ones do not show in the inode. */
  lemma SameSlots(bs: nat, s: Block, f: File, h: File)
    requires InodeRep(bs, s, f) && |f.data| >= Direct(bs) && f.data <= h.data
    requires h == f.(data := h.data)
    ensures InodeRep(bs, s, h)
  {
  }

  lemma TableGrown(bs: nat, t: Block, f: File, id: nat, h: File)
    requires BlockSizeOk(bs) && |t| == bs && id < 0x1_0000_0000
    requires Direct(bs) <= |f.data| < Direct(bs) + Entries(bs)
    requires |f.data| > Direct(bs) ==> TableRep(bs, t, f)
    requires h.data == f.data + [id]
    ensures TableRep(bs, Splice(t, 8 * (|f.data| - Direct(bs)), ToBytes(id, 8)), h)
  {
    var k := |f.data| - Direct(bs);
    var u := Splice(t, 8 * k, ToBytes(id, 8));
    forall j | 0 <= j < |h.data| - Direct(bs) ensures Entry(u, j) == h.data[Direct(bs) + j] {
      EntryStored(t, k, id, j);
    }
  }

  /** A block list with one more block, and with an indirect block if that is now needed. */
  lemma GrownBy(g: Geo, f: File, id: nat, ind: nat, h: File)
    requires g.Valid() && BlocksOk(g, f) && |f.data| < Direct(g.BlockSize()) + Entries(g.BlockSize())
    requires h == f.(data := f.data + [id], ind := ind)
    requires g.DataStart() <= id < g.Total() && id !in Owned(g.BlockSize(), f)
    requires if |f.data| == Direct(g.BlockSize())
      then g.DataStart() <= ind < g.Total() && ind !in Owned(g.BlockSize(), f) && ind != id
      else ind == f.ind
    ensures BlocksOk(g, h)
    ensures Owned(g.BlockSize(), h)
      == Owned(g.BlockSize(), f) + {id} + if |f.data| == Direct(g.BlockSize()) then {ind} else {}
  {
  }

  /** ... as it is in memory, with the new id stored in the indirect block. */
  lemma GrownInMemory(g: Geo, d: Disk, s: Block, t: Block, f: File, id: nat, h: File)
    requires g.Valid() && g.Fits(d) && InodeRep(g.BlockSize(), s, f.(ind := h.ind)) && |t| == g.BlockSize()
    requires Direct(g.BlockSize()) <= |f.data| < Direct(g.BlockSize()) + Entries(g.BlockSize())
    requires |f.data| > Direct(g.BlockSize()) ==> TableRep(g.BlockSize(), t, f)
    requires h == f.(data := f.data + [id], ind := h.ind) && BlocksOk(g, h)
    ensures InMemory(g, d, s, Splice(t, 8 * (|f.data| - Direct(g.BlockSize())), ToBytes(id, 8)), h)
  {
    DataInRange(g, h);
    assert h.data[|f.data|] == id;
    TableGrown(g.BlockSize(), t, f, id, h);
    SameSlots(g.BlockSize(), s, f.(ind := h.ind), h);
    hide InodeRep, TableRep, BlocksOk;
  }

  /** The indirect block of a file about to grow: a free one, now taken, if the direct slots are full, and
      otherwise the one it has. */
  ghost predicate IndGiven(bs: nat, f: File, ind: nat, free: set<nat>, left: set<nat>)
    requires BlockSizeOk(bs)
  {
    if |f.data| == Direct(bs) then ind in free && left == free - {ind} else ind == f.ind && left == free
  }

  lemma EntryAdded(g: Geo, d: Disk, e: Disk, s: Block, t: Block, f: File, id: nat, ind: nat)
    requires g.Valid() && g.Fits(d) && g.Fits(e) && BlocksOk(g, f) && Apart(g, d, f)
    requires Direct(g.BlockSize()) <= |f.data| < Direct(g.BlockSize()) + Entries(g.BlockSize())
    requires g.DataStart() <= id < g.Total() && id !in Owned(g.BlockSize(), f) && id !in g.Free(d)
    requires IndGiven(g.BlockSize(), f, ind, g.Free(d), g.Free(e))
    requires InodeRep(g.BlockSize(), s, f.(ind := ind)) && |t| == g.BlockSize()
    requires |f.data| > Direct(g.BlockSize()) ==> TableRep(g.BlockSize(), t, f)
    ensures var stored := Splice(t, 8 * (|f.data| - Direct(g.BlockSize())), ToBytes(id, 8));
      InMemory(g, e, s, stored, f.(data := f.data + [id], ind := ind))
  {
    var h := f.(data := f.data + [id], ind := ind);
    FreeIsData(g, d);
    hide InodeRep, TableRep, Owned, BlocksOk, InMemory, Region.FreeSet, Geo.Fits;
    GrownBy(g, f, id, ind, h);
    GrownInMemory(g, e, s, t, f, id, h);
  }

  lemma FreeIsData(g: Geo, d: Disk)
    requires g.Valid() && g.Fits(d)
    ensures forall b | b in g.Free(d) :: b < g.Total()
  {
  }

  /** The block list of `h` is made from the blocks of `f` and free ones, and what is left over is free. */
  ghost predicate Reblocked(g: Geo, f: File, h: File, free: set<nat>, left: set<nat>)
    requires g.Valid()
  {
    && h == f.(data := h.data, ind := h.ind)
    && Owned(g.BlockSize(), h) <= Owned(g.BlockSize(), f) + free
    && left == free + Owned(g.BlockSize(), f) - Owned(g.BlockSize(), h)
  }

  lemma GrownMore(g: Geo, f: File, h: File, k: File, free: set<nat>, mid: set<nat>, left: set<nat>)
    requires g.Valid() && Grown(g, f, h, free, mid) && Grown(g, h, k, mid, left)
    ensures Grown(g, f, k, free, left)
  {
  }

  lemma GrownApart(g: Geo, d: Disk, f: File, e: Disk, h: File)
    requires g.Valid() && g.Fits(d) && g.Fits(e) && Apart(g, d, f) && Grown(g, f, h, g.Free(d), g.Free(e))
    ensures Apart(g, e, h) && Reblocked(g, f, h, g.Free(d), g.Free(e))
  {
  }

  // ---- Writing the blocks of a file ----

  /** `d` and `e` agree on all blocks that are not listed. */
  ghost predicate ChangedOnly(d: Disk, e: Disk, ids: seq<nat>) {
    |d| == |e| && forall b | 0 <= b < |d| && b !in ids :: d[b] == e[b]
  }

  /** The first `k` listed blocks hold the beginning of the content. */
  ghost predicate Written(d: Disk, bs: nat, ids: seq<nat>, k: nat, content: seq<byte>)
    requires k <= |ids|
  {
    Take(Flatten(d, ids[..k]), Upto(|content|, bs, k)) == content[..Upto(|content|, bs, k)]
  }

  lemma BlockWritten(d: Disk, bs: nat, ids: seq<nat>, k: nat, content: seq<byte>, s: Block, e: Disk)
    requires bs > 0 && Sized(d, bs) && k < |ids| && forall i | 0 <= i < |ids| :: ids[i] < |d|
    requires forall i, j | 0 <= i < j < |ids| :: ids[i] != ids[j]
    requires Upto(|content|, bs, k) < |content| && Written(d, bs, ids, k, content)
    requires |s| == bs && e == d[ids[k] := s]
    requires var pos := Upto(|content|, bs, k); var n := PartSize(|content|, bs, pos);
      pos + n <= |content| && n <= bs && s[..n] == content[pos..pos + n]
    ensures Written(e, bs, ids, k + 1, content)
  {
    var pos := Upto(|content|, bs, k);
    var n := PartSize(|content|, bs, pos);
    forall b | b in ids[..k] && b < |d| ensures d[b] == e[b] {
      var i :| 0 <= i < k && ids[..k][i] == b;
      assert ids[i] != ids[k];
    }
    FlattenFrame(d, e, ids[..k]);
    NextPart(|content|, bs, k);
    BlockRead(e, bs, ids, |content|, k);
    assert content[..pos + n] == content[..pos] + content[pos..pos + n];
  }

  /** `f` with a new size and a new time. */
  function Restamped(f: File, size: nat, now: u64): File {
    f.(size := size, stamp := now)
  }

  /** With the data blocks written, the inode block and then the indirect block complete the file. */
  lemma Committed(g: Geo, d: Disk, s: Block, t: seq<byte>, h: File, e: Disk)
    requires g.Valid() && g.Fits(d) && InMemory(g, d, s, t, h) && h.home < |d| && (t != [] ==> h.ind < |d|)
    requires e == if t == [] then d[h.home := s] else d[h.home := s][h.ind := t]
    ensures FileRep(g.BlockSize(), e, h) && Content(e, h) == Content(d, h)
    ensures forall b | 0 <= b < |d| && b !in Owned(g.BlockSize(), h) :: d[b] == e[b]
  {
    DataInRange(g, h);
    assert h.home in Owned(g.BlockSize(), h);
    forall b | b in h.data && b < |d| ensures d[b] == e[b] {}
    FlattenFrame(d, e, h.data);
  }

  lemma NothingWritten(d: Disk, bs: nat, ids: seq<nat>, content: seq<byte>)
    ensures Written(d, bs, ids, 0, content)
  {
  }

  lemma AllWritten(d: Disk, bs: nat, ids: seq<nat>, content: seq<byte>)
    requires Written(d, bs, ids, |ids|, content) && Upto(|content|, bs, |ids|) == |content|
    ensures Take(Flatten(d, ids), |content|) == content
  {
    assert ids[..|ids|] == ids;
  }

  lemma SameBlocks(g: Geo, f: File, h: File)
    requires g.Valid() && BlocksOk(g, f) && f.home == h.home && f.data == h.data && f.ind == h.ind
    ensures BlocksOk(g, h) && Owned(g.BlockSize(), h) == Owned(g.BlockSize(), f)
  {
    assert Owned(g.BlockSize(), h) == Owned(g.BlockSize(), f);
  }

  lemma SameTable(g: Geo, d: Disk, t: seq<byte>, f: File, h: File)
    requires g.Valid() && TableIn(g.BlockSize(), d, t, f) && f.data == h.data && f.ind == h.ind
    ensures TableIn(g.BlockSize(), d, t, h)
  {
  }

  lemma InMemoryKept(g: Geo, d: Disk, s: Block, t: seq<byte>, f: File, e: Disk)
    requires g.Valid() && InMemory(g, d, s, t, f) && |d| == g.Total() && ChangedOnly(d, e, f.data)
    ensures InMemory(g, e, s, t, f)
  {
  }

  // ---- A file losing blocks ----

  /** `f` with the block ids from `lo` to `hi` struck out. */
  ghost function Holed(f: File, lo: nat, hi: nat): File {
    f.(data := seq(|f.data|, i requires 0 <= i < |f.data| => if lo <= i < hi then INVALID_BLOCK_ID else f.data[i]))
  }

  ghost predicate HoledInMemory(g: Geo, d: Disk, s: Block, t: seq<byte>, f: File, lo: nat, hi: nat)
    requires g.Valid()
  {
    InodeRep(g.BlockSize(), s, Holed(f, lo, hi)) && TableIn(g.BlockSize(), d, t, Holed(f, lo, hi))
  }

  lemma NothingHoled(g: Geo, d: Disk, s: Block, t: seq<byte>, f: File, lo: nat)
    requires g.Valid() && InMemory(g, d, s, t, f)
    ensures HoledInMemory(g, d, s, t, f, lo, lo)
  {
    assert Holed(f, lo, lo).data == f.data;
  }

  lemma HoledSlots(bs: nat, f: File, lo: nat, k: nat, a: File, b: File)
    requires BlockSizeOk(bs) && lo <= k < |f.data| && k < Direct(bs)
    requires a == Holed(f, lo, k) && b == Holed(f, lo, k + 1)
    ensures forall j | 0 <= j < NBlocks(bs) :: SlotOf(bs, b, j) == if j == k then INVALID_BLOCK_ID else SlotOf(bs, a, j)
    ensures a.kind == b.kind && a.size == b.size && a.stamp == b.stamp
  {
  }

  /** Striking out a direct block does not show in the indirect block, and the other way round. */
  lemma HoledDirect(g: Geo, d: Disk, t: seq<byte>, f: File, lo: nat, k: nat)
    requires g.Valid() && TableIn(g.BlockSize(), d, t, Holed(f, lo, k))
    requires lo <= k < |f.data| && k < Direct(g.BlockSize())
    ensures TableIn(g.BlockSize(), d, t, Holed(f, lo, k + 1))
  {
  }

  lemma HoledIndirect(bs: nat, s: Block, t: Block, f: File, lo: nat, k: nat)
    requires BlockSizeOk(bs) && InodeRep(bs, s, Holed(f, lo, k)) && TableRep(bs, t, Holed(f, lo, k))
    requires lo <= k < |f.data| && k >= Direct(bs)
    ensures InodeRep(bs, s, Holed(f, lo, k + 1))
    ensures TableRep(bs, Splice(t, 8 * (k - Direct(bs)), ToBytes(INVALID_BLOCK_ID, 8)), Holed(f, lo, k + 1))
  {
    var a, b := Holed(f, lo, k), Holed(f, lo, k + 1);
    forall j | 0 <= j < NBlocks(bs) ensures Slot(s, j) == SlotOf(bs, b, j) {
      assert Slot(s, j) == SlotOf(bs, a, j);
    }
    var i := k - Direct(bs);
    var u := Splice(t, 8 * i, ToBytes(INVALID_BLOCK_ID, 8));
    forall j | 0 <= j < |b.data| - Direct(bs) ensures Entry(u, j) == b.data[Direct(bs) + j] {
      EntryStored(t, i, INVALID_BLOCK_ID, j);
    }
  }

  /** Before a block is struck out ... */
  lemma HoledParts(g: Geo, d: Disk, s: Block, t: seq<byte>, f: File, lo: nat, k: nat)
    requires g.Valid() && HoledInMemory(g, d, s, t, f, lo, k) && BlocksOk(g, f) && k < |f.data|
    ensures var a := Holed(f, lo, k);
      && InodeRep(g.BlockSize(), s, a) && TableIn(g.BlockSize(), d, t, a)
      && |a.data| == |f.data| && a.data[k] == f.data[k] < g.Total()
  {
    DataInRange(g, f);
    hide InodeRep, TableIn, BlocksOk;
  }

  /** ... and after a direct block was. */
  lemma DirectDropped(g: Geo, d: Disk, s: Block, t: seq<byte>, f: File, lo: nat, k: nat, e: Disk)
    requires g.Valid() && |d| == g.Total() && BlocksOk(g, f) && lo <= k < |f.data| && k < Direct(g.BlockSize())
    requires TableIn(g.BlockSize(), d, t, Holed(f, lo, k)) && InodeRep(g.BlockSize(), s, Holed(f, lo, k + 1))
    requires SameOutside(d, e, g.blockMap.start, g.DataStart())
    ensures HoledInMemory(g, e, s, t, f, lo, k + 1)
  {
    DataInRange(g, f);
    HoledDirect(g, e, t, f, lo, k);
    hide InodeRep, BlocksOk, TableRep;
  }

  lemma HoledStored(g: Geo, d: Disk, s: Block, t: Block, f: File, lo: nat, k: nat)
    requires g.Valid() && InodeRep(g.BlockSize(), s, Holed(f, lo, k)) && TableRep(g.BlockSize(), t, Holed(f, lo, k))
    requires lo <= k < |f.data| && k >= Direct(g.BlockSize()) && f.ind < |d|
    ensures var u := Splice(t, 8 * (k - Direct(g.BlockSize())), ToBytes(INVALID_BLOCK_ID, 8));
      HoledInMemory(g, d, s, u, f, lo, k + 1)
  {
    HoledIndirect(g.BlockSize(), s, t, f, lo, k);
    hide InodeRep, TableRep;
  }

  /** `f` cut down to its first `n` blocks. */
  ghost function Trimmed(bs: nat, f: File, n: nat): File
    requires BlockSizeOk(bs) && n <= |f.data|
  {
    f.(data := f.data[..n], ind := if n <= Direct(bs) then INVALID_BLOCK_ID else f.ind)
  }

  lemma TrimmedOk(g: Geo, f: File, n: nat)
    requires g.Valid() && BlocksOk(g, f) && n <= |f.data|
    ensures BlocksOk(g, Trimmed(g.BlockSize(), f, n))
    ensures Owned(g.BlockSize(), Trimmed(g.BlockSize(), f, n)) <= Owned(g.BlockSize(), f)
    ensures Owned(g.BlockSize(), f) - Owned(g.BlockSize(), Trimmed(g.BlockSize(), f, n))
      == Elements(f.data[n..]) + if |f.data| > Direct(g.BlockSize()) >= n then {f.ind} else {}
  {
    Cut(f.data, n);
    var h := Trimmed(g.BlockSize(), f, n);
    assert Owned(g.BlockSize(), h) <= Owned(g.BlockSize(), f);
    forall b | b in Owned(g.BlockSize(), h) ensures g.DataStart() <= b < g.Total() {
      assert b in Owned(g.BlockSize(), f);
    }
  }

  lemma Cut(s: seq<nat>, n: nat)
    requires n <= |s| && forall i, j | 0 <= i < j < |s| :: s[i] != s[j]
    ensures Elements(s) == Elements(s[..n]) + Elements(s[n..]) && Elements(s[..n]) !! Elements(s[n..])
  {
  }

  /** Once all blocks past the first `n` are struck out, the inode is that of the shorter file. */
  lemma TrimmedInMemory(bs: nat, s: Block, f: File, n: nat, h: File)
    requires BlockSizeOk(bs) && n <= |f.data| && InodeRep(bs, s, Holed(f, n, |f.data|).(ind := h.ind))
    requires h == f.(data := f.data[..n], ind := h.ind)
    ensures InodeRep(bs, s, h)
  {
  }

  lemma TrimmedTable(bs: nat, d: Disk, t: seq<byte>, f: File, n: nat)
    requires BlockSizeOk(bs) && Direct(bs) < n <= |f.data| && TableIn(bs, d, t, Holed(f, n, |f.data|))
    ensures TableIn(bs, d, t, f.(data := f.data[..n]))
  {
  }

  lemma TrimmedInd(bs: nat, f: File, n: nat)
    requires BlockSizeOk(bs) && n <= |f.data|
    ensures n <= Direct(bs) ==> Trimmed(bs, f, n).ind == INVALID_BLOCK_ID
  {
  }

  /** Before the indirect block is freed ... */
  lemma TrimmedStart(g: Geo, d: Disk, s: Block, t: seq<byte>, f: File, n: nat, free: set<nat>)
    requires g.Valid() && g.Fits(d) && BlocksOk(g, f) && n <= |f.data| && HoledInMemory(g, d, s, t, f, n, |f.data|)
    requires Owned(g.BlockSize(), f) !! free
    ensures var a, bs := Holed(f, n, |f.data|), g.BlockSize();
      && BlockSizeOk(bs) && InodeRep(bs, s, a) && a.ind == f.ind && TableIn(bs, d, t, a)
      && (|f.data| > Direct(bs) ==> f.ind < |d| && f.ind !in free + Elements(f.data[n..]))
      && (|f.data| <= Direct(bs) ==> t == [])
      && (!(|f.data| > Direct(bs) >= n) ==> a.(ind := Trimmed(bs, f, n).ind) == a)
  {
  }

  /** ... and after that. */
  lemma TrimmedDone(g: Geo, d: Disk, s: Block, t: seq<byte>, f: File, n: nat, free: set<nat>, left: set<nat>)
    requires g.Valid() && g.Fits(d) && BlocksOk(g, f) && n <= |f.data|
    requires InodeRep(g.BlockSize(), s, Holed(f, n, |f.data|).(ind := Trimmed(g.BlockSize(), f, n).ind))
    requires if n > Direct(g.BlockSize()) then TableIn(g.BlockSize(), d, t, Holed(f, n, |f.data|)) else t == []
    requires Owned(g.BlockSize(), f) !! free
    requires left == free + Elements(f.data[n..]) + if |f.data| > Direct(g.BlockSize()) >= n then {f.ind} else {}
    ensures var h := Trimmed(g.BlockSize(), f, n);
      InMemory(g, d, s, t, h) && |h.data| == n && Reblocked(g, f, h, free, left)
  {
    var bs := g.BlockSize();
    TrimmedOk(g, f, n);
    TrimmedInMemory(bs, s, f, n, Trimmed(bs, f, n));
    TrimmedFree(g, f, n, free, left);
    if n > Direct(bs) { TrimmedTable(bs, d, t, f, n); }
    hide InodeRep, TableRep, Owned, BlocksOk, Reblocked;
  }

  // ---- What a write does to the volume ----

  /** The new blocks are those of a file of the new size, the content is written, and no block of another
      file has changed. */
  ghost predicate FileWritten(g: Geo, d: Disk, e: Disk, f: File, h: File, content: seq<byte>)
    requires g.Valid() && g.Fits(d) && g.Fits(e)
  {
    && h.home == f.home && h.kind == f.kind && h.size == |content|
    && BlocksOk(g, h) && |h.data| == CeilDiv(|content|, g.BlockSize())
    && FileRep(g.BlockSize(), e, h) && Content(e, h) == content
    && Owned(g.BlockSize(), h) <= Owned(g.BlockSize(), f) + g.Free(d)
    && g.Free(e) == g.Free(d) + Owned(g.BlockSize(), f) - Owned(g.BlockSize(), h)
    && forall b | 0 <= b < |d| && b !in Owned(g.BlockSize(), h) && !(g.blockMap.start <= b < g.DataStart()) ::
         d[b] == e[b]
  }

  /** Writing blocks of a file does not reach the block bitmap. */
  lemma FreeUntouched(g: Geo, d: Disk, e: Disk, h: File)
    requires g.Valid() && g.Fits(d) && g.Fits(e) && BlocksOk(g, h)
    requires forall b | 0 <= b < |d| && b !in Owned(g.BlockSize(), h) :: d[b] == e[b]
    ensures g.Free(e) == g.Free(d)
  {
  }

  lemma FrontUntouched(g: Geo, d: Disk, e: Disk, f: File, h: File, content: seq<byte>)
    requires g.Valid() && g.Fits(d) && g.Fits(e) && FileWritten(g, d, e, f, h, content)
    ensures e[0] == d[0]
  {
  }

  lemma Unloaded(g: Geo, d: Disk, s: Block, f: File)
    requires g.Valid() && WellFormed(g, f) && FileRep(g.BlockSize(), d, f) && InodeRep(g.BlockSize(), s, f)
    ensures InMemory(g, d, s, [], f) && |f.data| == CeilDiv(f.size, g.BlockSize())
    ensures |f.data| <= Direct(g.BlockSize()) + Entries(g.BlockSize())
  {
  }

  lemma WriteRefines(g: Geo, d: Disk, files: map<nat, File>, e: Disk, r: nat, h: File, content: seq<byte>)
    requires Consistent(g, d, files) && g.Fits(e) && r in files && r + 2 < g.MaxInodes()
    requires FileWritten(g, d, e, files[r], h, content) && |content| <= MaxFileSize(g.BlockSize())
    requires A.CostOf(g.BlockSize(), |h.data|) - A.CostOf(g.BlockSize(), |files[r].data|) <= |g.Free(d)|
    ensures Consistent(g, e, files[r := h])
    ensures (AbsOf(g, e, files[r := h]), Ok(())) == A.WriteFile(AbsOf(g, d, files), r + 1, content, h.stamp)
  {
    WrittenWellFormed(g, d, files, e, r, h, content);
    hide Consistent, FileRep, FileWritten, Content, Owned, BlocksOk, WellFormed, Region.Shaped,
      InodeTable.Shaped, Region.FreeSet;
    AbsWrite(AbsOf(g, d, files), AbsOf(g, e, files[r := h]), r, content, h.stamp);
  }

  lemma WrittenWellFormed(g: Geo, d: Disk, files: map<nat, File>, e: Disk, r: nat, h: File, content: seq<byte>)
    requires Consistent(g, d, files) && g.Fits(e) && r in files
    requires FileWritten(g, d, e, files[r], h, content) && |content| <= MaxFileSize(g.BlockSize())
    ensures Consistent(g, e, files[r := h])
    ensures AbsFiles(e, files[r := h]) == AbsFiles(d, files)[r := A.AFile(files[r].kind, content, h.stamp)]
    ensures r in AbsFiles(d, files) && AbsFiles(d, files)[r].kind == files[r].kind
    ensures CeilDiv(|AbsFiles(d, files)[r].content|, g.BlockSize()) == |files[r].data|
    ensures CeilDiv(|content|, g.BlockSize()) == |h.data|
    ensures |g.Free(e)| == |g.Free(d)| + A.CostOf(g.BlockSize(), |files[r].data|) - A.CostOf(g.BlockSize(), |h.data|)
  {
    hide *;
    ConsistentParts(g, d, files);
    MetadataFirst(g);
    FileInView(g, d, files, r);
    WrittenParts(g, d, e, files[r], h, content);
    Replaced(g, d, files, e, r, h);
  }

  lemma WrittenParts(g: Geo, d: Disk, e: Disk, f: File, h: File, content: seq<byte>)
    requires g.Valid() && g.Fits(d) && g.Fits(e)
    requires FileWritten(g, d, e, f, h, content) && |content| <= MaxFileSize(g.BlockSize())
    ensures h.home == f.home && WellFormed(g, h) && FileRep(g.BlockSize(), e, h)
    ensures Owned(g.BlockSize(), h) <= Owned(g.BlockSize(), f) + g.Free(d)
    ensures g.Free(e) == g.Free(d) + Owned(g.BlockSize(), f) - Owned(g.BlockSize(), h)
    ensures forall b | 0 <= b < |d| && b !in Owned(g.BlockSize(), h) && !(g.blockMap.start <= b < g.DataStart()) ::
      d[b] == e[b]
    ensures AbsFile(e, h) == A.AFile(f.kind, content, h.stamp) && CeilDiv(|content|, g.BlockSize()) == |h.data|
  {
    BlockLimit(|content|, g.BlockSize());
    hide FileRep, Content, Owned, BlocksOk, CeilDiv, Region.FreeSet;
  }

  /** A file as its callers see it has the size that its blocks say. */
  lemma FileInView(g: Geo, d: Disk, files: map<nat, File>, r: nat)
    requires Consistent(g, d, files) && r in files
    ensures r in AbsFiles(d, files) && AbsFiles(d, files)[r].kind == files[r].kind
    ensures CeilDiv(|AbsFiles(d, files)[r].content|, g.BlockSize()) == |files[r].data|
    ensures WellFormed(g, files[r])
  {
    ContentLength(g, d, files[r]);
    hide FileRep, Content, Owned, BlocksOk, CeilDiv, TablesRep, Disjoint;
  }

  /** The successful write of the abstract file system. */
  lemma AbsWrite(a: A.Abs, b: A.Abs, r: nat, content: seq<byte>, now: u64)
    requires BlockSizeOk(a.bs) && r in a.files && r + 2 < a.maxInodes && |content| <= MaxFileSize(a.bs)
    requires var need := A.Cost(a.bs, |content|) - A.Cost(a.bs, |a.files[r].content|);
      need <= a.free && b == a.(files := a.files[r := A.AFile(a.files[r].kind, content, now)], free := a.free - need)
    ensures (b, Ok(())) == A.WriteFile(a, r + 1, content, now)
  {
  }

  /** A write that runs out of blocks only marks the free ones as taken. */
  lemma FailedWriteRefines(g: Geo, d: Disk, files: map<nat, File>, e: Disk, r: nat, content: seq<byte>, now: u64)
    requires Consistent(g, d, files) && g.Fits(e) && r in files && r + 2 < g.MaxInodes()
    requires SameOutside(d, e, g.blockMap.start, g.DataStart()) && g.Free(e) == {}
    requires |content| <= MaxFileSize(g.BlockSize())
    requires A.Cost(g.BlockSize(), |content|) - A.CostOf(g.BlockSize(), |files[r].data|) > |g.Free(d)|
    ensures Consistent(g, e, files)
    ensures (AbsOf(g, e, files), Err(OutOfResource)) == A.WriteFile(AbsOf(g, d, files), r + 1, content, now)
  {
    FileInView(g, d, files, r);
    Remarked(g, d, files, e);
    hide Consistent, FileRep, Content, Owned, BlocksOk, WellFormed, CeilDiv, Region.Shaped, InodeTable.Shaped,
      Region.FreeSet;
    AbsWriteFails(AbsOf(g, d, files), AbsOf(g, e, files), r, content, now);
  }

  lemma AbsWriteFails(a: A.Abs, b: A.Abs, r: nat, content: seq<byte>, now: u64)
    requires BlockSizeOk(a.bs) && r in a.files && r + 2 < a.maxInodes && |content| <= MaxFileSize(a.bs)
    requires A.Cost(a.bs, |content|) - A.Cost(a.bs, |a.files[r].content|) > a.free && b == a.(free := 0)
    ensures (b, Err(OutOfResource)) == A.WriteFile(a, r + 1, content, now)
  {
  }

  // ---- What allocating an inode does to the volume ----

  lemma NoBlock(g: Geo, d: Disk, files: map<nat, File>, kind: Kind, now: u64)
    requires Consistent(g, d, files) && g.Free(d) == {}
    ensures (AbsOf(g, d, files), Err(Thrown)) == A.AllocInode(AbsOf(g, d, files), kind, now)
  {
  }

  /** A block taken from the free ones is nobody's. */
  lemma BlockTaken(g: Geo, d: Disk, files: map<nat, File>, b: nat, e: Disk)
    requires Consistent(g, d, files) && g.Fits(e) && b in g.Free(d)
    requires SameOutside(d, e, g.blockMap.start, g.DataStart()) && g.Free(e) == g.Free(d) - {b}
    ensures Consistent(g, e, files) && AbsFiles(e, files) == AbsFiles(d, files)
    ensures g.DataStart() <= b < g.Total() && forall q | q in files :: b !in Owned(g.BlockSize(), files[q])
  {
    Remarked(g, d, files, e);
  }

  lemma NoInode(g: Geo, d: Disk, files: map<nat, File>, e: Disk, kind: Kind, now: u64)
    requires Consistent(g, d, files) && Consistent(g, e, files) && AbsFiles(e, files) == AbsFiles(d, files)
    requires g.inodeMap.FreeSet(e) == {} && |g.Free(e)| + 1 == |g.Free(d)|
    ensures (AbsOf(g, e, files), Err(OutOfResource)) == A.AllocInode(AbsOf(g, d, files), kind, now)
  {
  }

  /** The least unused inode number now names an empty file. */
  lemma InodeAdded(g: Geo, d: Disk, files: map<nat, File>, m: Disk, e: Disk, r: nat, f: File)
    requires Consistent(g, d, files) && Consistent(g, m, files) && AbsFiles(m, files) == AbsFiles(d, files)
    requires g.Fits(e) && |g.Free(m)| + 1 == |g.Free(d)|
    requires f.data == [] && f.size == 0 && f.ind == INVALID_BLOCK_ID && g.DataStart() <= f.home < g.Total()
    requires f.home !in g.Free(m) && forall q | q in files :: f.home !in Owned(g.BlockSize(), files[q])
    requires r in g.inodeMap.FreeSet(m) && forall q | q in g.inodeMap.FreeSet(m) :: r <= q
    requires g.inodeMap.FreeSet(e) == g.inodeMap.FreeSet(m) - {r}
    requires forall q | 0 <= q < g.MaxInodes() :: g.table.At(e, q) == if q == r then f.home else g.table.At(m, q)
    requires InodeRep(g.BlockSize(), e[f.home], f)
    requires forall b | g.blockMap.start <= b < |m| && b != f.home :: m[b] == e[b]
    ensures Consistent(g, e, files[r := f])
    ensures (AbsOf(g, e, files[r := f]), Ok(r + 1)) == A.AllocInode(AbsOf(g, d, files), f.kind, f.stamp)
  {
    EmptyFile(g, e, f);
    TablesAdded(g, m, files, e, r, f);
    LeastUnused(g, m, files, r);
    Added(g, m, files, e, r, f);
    hide Consistent, FileRep, Content, Owned, BlocksOk, WellFormed, Region.Shaped, InodeTable.Shaped,
      Region.FreeSet, InodeRep, TablesRep;
    assert AbsFile(e, f) == A.AFile(f.kind, [], f.stamp);
    AbsAlloc(AbsOf(g, d, files), AbsOf(g, e, files[r := f]), r, f.kind, f.stamp);
  }

  lemma EmptyFile(g: Geo, e: Disk, f: File)
    requires g.Valid() && g.Fits(e) && g.DataStart() <= f.home < g.Total()
    requires f.data == [] && f.size == 0 && f.ind == INVALID_BLOCK_ID && InodeRep(g.BlockSize(), e[f.home], f)
    ensures WellFormed(g, f) && FileRep(g.BlockSize(), e, f) && Content(e, f) == []
  {
  }

  lemma TablesAdded(g: Geo, m: Disk, files: map<nat, File>, e: Disk, r: nat, f: File)
    requires g.Valid() && g.Fits(m) && g.Fits(e) && TablesRep(g, m, files)
    requires r in g.inodeMap.FreeSet(m) && g.inodeMap.FreeSet(e) == g.inodeMap.FreeSet(m) - {r}
    requires forall q | 0 <= q < g.MaxInodes() :: g.table.At(e, q) == if q == r then f.home else g.table.At(m, q)
    ensures TablesRep(g, e, files[r := f]) && r !in files && r < g.MaxInodes()
  {
  }

  lemma UnusedNumbers(g: Geo, m: Disk, files: map<nat, File>, r: nat)
    requires g.Valid() && g.Fits(m) && TablesRep(g, m, files)
    requires r in g.inodeMap.FreeSet(m) && forall q | q in g.inodeMap.FreeSet(m) :: r <= q
    ensures r !in files && r < g.MaxInodes() && forall q: nat | q < r :: q in files
  {
  }

  lemma LeastUnused(g: Geo, m: Disk, files: map<nat, File>, r: nat)
    requires g.Valid() && g.Fits(m) && TablesRep(g, m, files)
    requires r in g.inodeMap.FreeSet(m) && forall q | q in g.inodeMap.FreeSet(m) :: r <= q
    ensures A.FirstUnused(AbsFiles(m, files), 0, g.MaxInodes()) == Some(r)
  {
    hide *;
    UnusedNumbers(g, m, files, r);
    AbsKeys(m, files);
    A.FirstUnusedIsLeast(AbsFiles(m, files), 0, g.MaxInodes(), r);
  }

  lemma AbsKeys(d: Disk, files: map<nat, File>)
    ensures AbsFiles(d, files).Keys == files.Keys
  {
  }

  lemma AbsAlloc(a: A.Abs, b: A.Abs, r: nat, kind: Kind, now: u64)
    requires a.free > 0 && A.FirstUnused(a.files, 0, a.maxInodes) == Some(r)
    requires b == a.(files := a.files[r := A.AFile(kind, [], now)], free := a.free - 1)
    ensures (b, Ok(r + 1)) == A.AllocInode(a, kind, now)
  {
  }

  // ---- What removing a file does to the volume ----

  lemma TablesRemoved(g: Geo, d: Disk, files: map<nat, File>, m: Disk, r: nat)
    requires g.Valid() && g.Fits(d) && g.Fits(m) && TablesRep(g, d, files) && r in files
    requires g.inodeMap.FreeSet(m) == g.inodeMap.FreeSet(d) + {r}
    requires forall q | 0 <= q < g.MaxInodes() ::
      g.table.At(m, q) == if q == r then INVALID_BLOCK_ID else g.table.At(d, q)
    ensures TablesRep(g, m, files - {r})
  {
  }

  /** Freeing the inode leaves a volume without the file, whose blocks are still marked. */
  lemma InodeFreed(g: Geo, d: Disk, files: map<nat, File>, m: Disk, r: nat)
    requires Consistent(g, d, files) && g.Fits(m) && r in files
    requires g.inodeMap.FreeSet(m) == g.inodeMap.FreeSet(d) + {r}
    requires forall q | 0 <= q < g.MaxInodes() ::
      g.table.At(m, q) == if q == r then INVALID_BLOCK_ID else g.table.At(d, q)
    requires SameOutside(d, m, 1, g.blockMap.start)
    ensures Consistent(g, m, files - {r}) && g.Free(m) == g.Free(d)
    ensures AbsFiles(m, files - {r}) == AbsFiles(d, files) - {r}
  {
    TablesRemoved(g, d, files, m, r);
    Removed(g, d, files, m, r);
  }

  /** Giving the blocks back completes the removal. */
  lemma RemoveRefines(g: Geo, d: Disk, files: map<nat, File>, m: Disk, e: Disk, r: nat)
    requires Consistent(g, d, files) && r in files && r + 2 < g.MaxInodes()
    requires Consistent(g, m, files - {r}) && AbsFiles(m, files - {r}) == AbsFiles(d, files) - {r}
    requires g.Fits(e) && SameOutside(m, e, g.blockMap.start, g.DataStart())
    requires |files[r].data| <= Direct(g.BlockSize())
    requires g.Free(e) == g.Free(d) + Owned(g.BlockSize(), files[r])
    ensures Consistent(g, e, files - {r})
    ensures (AbsOf(g, e, files - {r}), Ok(())) == A.RemoveFile(AbsOf(g, d, files), r + 1)
  {
    hide *;
    ConsistentParts(g, d, files);
    RemovedSize(g, d, files, r);
    Reclaimed(g, d, files, m, e, r);
    AbsRemoved(g, d, files, e, r);
  }

  /** How many blocks become free. */
  lemma RemovedSize(g: Geo, d: Disk, files: map<nat, File>, r: nat)
    requires Consistent(g, d, files) && r in files && |files[r].data| <= Direct(g.BlockSize())
    ensures r in AbsFiles(d, files) && CeilDiv(|AbsFiles(d, files)[r].content|, g.BlockSize()) == |files[r].data|
    ensures |g.Free(d) + Owned(g.BlockSize(), files[r])| == |g.Free(d)| + 1 + |files[r].data|
  {
    hide *;
    ConsistentParts(g, d, files);
    MetadataFirst(g);
    FileInView(g, d, files, r);
    DirectCount(g, d, files, r);
    assert |g.Free(d) + Owned(g.BlockSize(), files[r])| == |g.Free(d)| + |Owned(g.BlockSize(), files[r])|;
  }

  lemma DirectCount(g: Geo, d: Disk, files: map<nat, File>, r: nat)
    requires Consistent(g, d, files) && r in files && |files[r].data| <= Direct(g.BlockSize())
    ensures |Owned(g.BlockSize(), files[r])| == 1 + |files[r].data| && Owned(g.BlockSize(), files[r]) !! g.Free(d)
  {
    assert WellFormed(g, files[r]);
    OwnedCount(g.BlockSize(), files[r]);
    hide FileRep, Content, Owned, TablesRep, Region.FreeSet, CeilDiv;
  }

  lemma AbsRemoved(g: Geo, d: Disk, files: map<nat, File>, e: Disk, r: nat)
    requires g.Valid() && g.Fits(d) && g.Fits(e) && r in files && r + 2 < g.MaxInodes()
    requires AbsFiles(e, files - {r}) == AbsFiles(d, files) - {r} && r in AbsFiles(d, files)
    requires var n := CeilDiv(|AbsFiles(d, files)[r].content|, g.BlockSize());
      n <= Direct(g.BlockSize()) && |g.Free(e)| == |g.Free(d)| + 1 + n
    ensures (AbsOf(g, e, files - {r}), Ok(())) == A.RemoveFile(AbsOf(g, d, files), r + 1)
  {
    hide AbsFiles, Geo.Free, CeilDiv, Region.Shaped, InodeTable.Shaped, Geo.Fits;
    AbsRemove(AbsOf(g, d, files), AbsOf(g, e, files - {r}), r);
  }

  lemma Reclaimed(g: Geo, d: Disk, files: map<nat, File>, m: Disk, e: Disk, r: nat)
    requires Consistent(g, d, files) && r in files && Consistent(g, m, files - {r})
    requires g.Fits(e) && SameOutside(m, e, g.blockMap.start, g.DataStart())
    requires g.Free(e) == g.Free(d) + Owned(g.BlockSize(), files[r])
    ensures Consistent(g, e, files - {r}) && AbsFiles(e, files - {r}) == AbsFiles(m, files - {r})
  {
    StillApart(g, d, files, g.Free(e), r);
    hide Disjoint, TablesRep, FileRep, WellFormed, Owned, Region.Shaped, InodeTable.Shaped, Region.FreeSet;
    Remarked(g, m, files - {r}, e);
  }

  lemma StillApart(g: Geo, d: Disk, files: map<nat, File>, left: set<nat>, r: nat)
    requires Consistent(g, d, files) && r in files && left == g.Free(d) + Owned(g.BlockSize(), files[r])
    ensures forall q | q in files - {r} :: Owned(g.BlockSize(), (files - {r})[q]) !! left
    ensures forall b | b in left :: g.DataStart() <= b
  {
    hide *;
    OwnedMarked(g, d, files, r);
    ConsistentParts(g, d, files);
    LeftApart(g, d, files, left, r);
  }

  lemma LeftApart(g: Geo, d: Disk, files: map<nat, File>, left: set<nat>, r: nat)
    requires g.Valid() && g.Fits(d) && Disjoint(g, d, files)
    requires r in files && left == g.Free(d) + Owned(g.BlockSize(), files[r])
    requires forall b | b in Owned(g.BlockSize(), files[r]) :: g.DataStart() <= b
    ensures forall q | q in files - {r} :: Owned(g.BlockSize(), (files - {r})[q]) !! left
    ensures forall b | b in left :: g.DataStart() <= b
  {
  }

  lemma AbsRemove(a: A.Abs, b: A.Abs, r: nat)
    requires BlockSizeOk(a.bs) && r in a.files && r + 2 < a.maxInodes
    requires var n := CeilDiv(|a.files[r].content|, a.bs);
      n <= Direct(a.bs) && b == a.(files := a.files - {r}, free := a.free + 1 + n)
    ensures (b, Ok(())) == A.RemoveFile(a, r + 1)
  {
  }

  lemma FreeSetKept(g: Geo, d: Disk, e: Disk)
    requires g.Valid() && g.Fits(d) && g.Fits(e) && SameOutside(d, e, 1, g.blockMap.start)
    ensures g.Free(e) == g.Free(d)
  {
  }

  lemma AbsRemoveFaults(a: A.Abs, r: nat)
    requires BlockSizeOk(a.bs) && r in a.files && r + 2 < a.maxInodes
    requires CeilDiv(|a.files[r].content|, a.bs) > Direct(a.bs)
    ensures (a, Err(Fault)) == A.RemoveFile(a, r + 1)
  {
  }

  lemma NextElement(s: seq<nat>, i: nat)
    requires i < |s| && forall i, j | 0 <= i < j < |s| :: s[i] != s[j]
    ensures s[i] !in Elements(s[..i]) && Elements(s[..i + 1]) == Elements(s[..i]) + {s[i]}
  {
  }

  /** Both steps together. */
  lemma FileRemoved(g: Geo, d: Disk, files: map<nat, File>, m: Disk, e: Disk, r: nat)
    requires Consistent(g, d, files) && g.Fits(m) && r in files && r + 2 < g.MaxInodes()
    requires g.inodeMap.FreeSet(m) == g.inodeMap.FreeSet(d) + {r}
    requires forall q | 0 <= q < g.MaxInodes() ::
      g.table.At(m, q) == if q == r then INVALID_BLOCK_ID else g.table.At(d, q)
    requires SameOutside(d, m, 1, g.blockMap.start)
    requires g.Fits(e) && SameOutside(m, e, g.blockMap.start, g.DataStart())
    requires |files[r].data| <= Direct(g.BlockSize())
    requires g.Free(e) == g.Free(d) + Owned(g.BlockSize(), files[r])
    ensures 0 < |d| == |e| && e[0] == d[0] && Consistent(g, e, files - {r})
    ensures (AbsOf(g, e, files - {r}), Ok(())) == A.RemoveFile(AbsOf(g, d, files), r + 1)
  {
    hide *;
    ConsistentParts(g, d, files);
    InodeFreed(g, d, files, m, r);
    RemoveRefines(g, d, files, m, e, r);
    SuperBlockKept(g, d, m, e);
  }

  lemma SuperBlockKept(g: Geo, d: Disk, m: Disk, e: Disk)
    requires g.Valid() && g.Fits(d) && SameOutside(d, m, 1, g.blockMap.start)
    requires SameOutside(m, e, g.blockMap.start, g.DataStart())
    ensures 0 < |d| == |e| && e[0] == d[0]
  {
  }

  /** A file without an indirect block is its inode and its direct blocks; these are all different, and none of them
      is free. */
  lemma RemovalFacts(g: Geo, d: Disk, f: File)
    requires g.Valid() && g.Fits(d) && BlocksOk(g, f) && Apart(g, d, f)
    ensures f.ind == INVALID_BLOCK_ID <==> |f.data| <= Direct(g.BlockSize())
    ensures |f.data| <= Direct(g.BlockSize()) ==>
      var s := f.data + [f.home];
      && Elements(s) == Owned(g.BlockSize(), f)
      && (forall i | 0 <= i < |s| :: s[i] < g.Total() && s[i] !in g.Free(d))
      && forall i, j | 0 <= i < j < |s| :: s[i] != s[j]
  {
    var s := f.data + [f.home];
    if |f.data| <= Direct(g.BlockSize()) {
      assert Elements(s) == Owned(g.BlockSize(), f);
      forall i | 0 <= i < |s| ensures s[i] < g.Total() && s[i] !in g.Free(d) {
        assert s[i] in Owned(g.BlockSize(), f);
      }
    }
  }
}
