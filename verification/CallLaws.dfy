/** What each call does and returns, in numbers and bytes: the sizes and costs here are those of the block size
    alone, and a call that is made of others is compared with them. */
module CallLaws {
  import opened Bytes
  import opened Results
  import opened Inodes
  import opened DirectoryText
  import opened AbstractRuns
  import opened Geometry
  import T = TextLaws
  import A = AbstractFs
  import D = AbstractDirs

  // ---- Which ids are served ----

  /** Reading a file gives its bytes exactly if the id is that of a file and not one of the last two. Id 0 is a
      fault, any other id is invalid. */
  lemma Served(a: A.Abs, id: nat)
    requires D.SizesOk(a)
    ensures Step(a, ReadFile(id)) == (a, Text(A.ReadFile(a, id)))
    ensures A.ReadFile(a, id).Ok? <==> 0 < id && id + 1 < a.maxInodes && id - 1 in a.files
    ensures A.ReadFile(a, id).Ok? ==> A.ReadFile(a, id) == Ok(a.files[id - 1].content)
    ensures A.ReadFile(a, id) == Err(Fault) <==> id == 0 && 1 < a.maxInodes
    ensures A.ReadFile(a, id).Err? ==> A.ReadFile(a, id).error in {Fault, InvalidArg}
  {
  }

  /** An id that cannot be read is refused by every call for the same reason, and nothing changes. */
  lemma Refused(a: A.Abs, id: nat, e: Error, data: seq<byte>, off: nat, sz: nat, name: Text, now: u64)
    requires D.SizesOk(a) && A.ReadFile(a, id) == Err(e)
    ensures Step(a, WriteFile(id, data, now)) == (a, Nothing(Err(e)))
    ensures Step(a, WriteAt(id, data, off, now)) == (a, Number(Err(e)))
    ensures Step(a, Resize(id, sz, now)) == (a, NewAttr(Err(e)))
    ensures Step(a, RemoveFile(id)) == (a, Nothing(Err(e)))
    ensures Step(a, ReadAt(id, sz, off)) == (a, Text(Err(e)))
    ensures Step(a, GetTypeAttr(id)) == (a, KindAttr(Err(e)))
    ensures A.GetKind(a, id) == Err(e) && A.GetAttr(a, id) == Err(e)
    ensures Step(a, Lookup(id, name)) == (a, Number(Err(e)))
    ensures Step(a, Unlink(id, name, now)) == (a, Nothing(Err(e)))
  {
  }

  // ---- Asking ----

  /** Kind and attributes are those of the file, asked for together or one by one: its kind, three times the
      time stamp, and the number of its bytes. */
  lemma Attributes(a: A.Abs, id: nat)
    requires D.SizesOk(a) && A.ReadFile(a, id).Ok?
    ensures id > 0 && id - 1 in a.files
    ensures var f := a.files[id - 1]; var attr := Attr(f.stamp, f.stamp, f.stamp, |A.ReadFile(a, id).value|);
      && A.GetKind(a, id) == Ok(f.kind) && A.GetAttr(a, id) == Ok(attr)
      && Step(a, GetTypeAttr(id)) == (a, KindAttr(Ok((f.kind, attr))))
  {
  }

  /** For every id, asking for both gives the pair of what asking for each gives, or their error. */
  lemma AttributesTogether(a: A.Abs, id: nat)
    requires D.SizesOk(a)
    ensures var (kind, attr, both) := (A.GetKind(a, id), A.GetAttr(a, id), A.GetKindAttr(a, id));
      && (both.Ok? <==> kind.Ok? && attr.Ok?) && (kind.Ok? <==> attr.Ok?)
      && (both.Ok? ==> both == Ok((kind.value, attr.value)))
      && (both.Err? ==> both.error == kind.error == attr.error)
      && Step(a, GetTypeAttr(id)) == (a, KindAttr(both))
  {
  }

  /** A window that lies inside the file is read; one that does not is a fault. */
  lemma WindowRead(a: A.Abs, id: nat, sz: nat, off: nat)
    requires D.SizesOk(a) && A.ReadFile(a, id).Ok?
    ensures var s := A.ReadFile(a, id).value;
      Step(a, ReadAt(id, sz, off)) == (a, Text(if off + sz <= |s| then Ok(s[off..off + sz]) else Err(Fault)))
  {
  }

  /** The counters. */
  lemma Counted(a: A.Abs)
    requires D.SizesOk(a)
    ensures Step(a, CountFree) == (a, Free(a.free, a.maxInodes - |a.files|))
    ensures Step(a, Reopen) == (a, Nothing(Ok(())))
  {
  }

  // ---- Writing ----

  /** Writing a served file, from the block size alone. Contents over the limit are refused and change nothing;
      contents that take more blocks than the file has and are free are refused too, and no block is free then;
      all other contents are written. */
  lemma ContentsWritten(a: A.Abs, id: nat, content: seq<byte>, now: u64)
    requires D.SizesOk(a) && A.ReadFile(a, id).Ok?
    ensures id > 0 && id - 1 in a.files && a.bs >= 52
    ensures var direct := (a.bs - 44) / 8 - 1;
      var p, q := (|A.ReadFile(a, id).value| + a.bs - 1) / a.bs, (|content| + a.bs - 1) / a.bs;
      var has, takes := p + (if p > direct then 1 else 0), q + (if q > direct then 1 else 0);
      Step(a, WriteFile(id, content, now)) ==
        if |content| > (direct + a.bs / 8) * a.bs then (a, Nothing(Err(OutOfResource)))
        else if takes > has + a.free then (a.(free := 0), Nothing(Err(OutOfResource)))
        else (a.(files := a.files[id - 1 := A.AFile(a.files[id - 1].kind, content, now)], free := a.free + has - takes),
              Nothing(Ok(())))
  {
    BlocksOfFile(a.bs, |A.ReadFile(a, id).value|);
    BlocksOfFile(a.bs, |content|);
    InodeRoom(a.bs);
    hide A.Cost, MaxFileSize;
  }

  /** Writing a window writes the whole file with the window put into it, unless it ends past the largest 64-bit
      offset; the number returned is that of the bytes in the window. It succeeds exactly if the file, as long as
      it was or as the window reaches, is within the limit and there are blocks for it. */
  lemma WindowWritten(a: A.Abs, id: nat, data: seq<byte>, off: nat, now: u64)
    requires D.SizesOk(a) && A.ReadFile(a, id).Ok?
    ensures a.bs >= 52
    ensures var s := A.ReadFile(a, id).value; var end := off + |data|;
      var (b, o) := Step(a, WriteAt(id, data, off, now));
      var (c, w) := Step(a, WriteFile(id, A.Overwritten(s, data, off), now));
      var size, direct := (if end > |s| then end else |s|), (a.bs - 44) / 8 - 1;
      var p, q := (|s| + a.bs - 1) / a.bs, (size + a.bs - 1) / a.bs;
      && (end > 0xffff_ffff_ffff_ffff ==> (b, o) == (a, Number(Err(Fault))))
      && (end <= 0xffff_ffff_ffff_ffff ==>
          b == c && o == Number(if w == Nothing(Ok(())) then Ok(|data|) else Err(OutOfResource)))
      && (o == Number(Ok(|data|)) <==>
          && end <= 0xffff_ffff_ffff_ffff && size <= (direct + a.bs / 8) * a.bs
          && q + (if q > direct then 1 else 0) <= p + (if p > direct then 1 else 0) + a.free)
      && (o == Number(Ok(|data|)) || o == Number(Err(Fault)) || o == Number(Err(OutOfResource)))
  {
    var s := A.ReadFile(a, id).value;
    ContentsWritten(a, id, A.Overwritten(s, data, off), now);
    WindowLength(s, data, off);
    hide A.WriteFile, A.Overwritten, A.ReadFile;
  }

  lemma WindowLength(s: seq<byte>, data: seq<byte>, off: nat)
    ensures |A.Overwritten(s, data, off)| == if off + |data| > |s| then off + |data| else |s|
  {
  }

  /** Resizing writes the bytes cut or filled up, unless the size is the one the file has; the attributes returned
      have the new size, which is then that of the file, and the times from before. */
  lemma SizeChanged(a: A.Abs, id: nat, sz: nat, now: u64)
    requires D.SizesOk(a) && A.ReadFile(a, id).Ok?
    ensures id > 0 && id - 1 in a.files
    ensures var s, f := A.ReadFile(a, id).value, a.files[id - 1]; var attr := Attr(f.stamp, f.stamp, f.stamp, sz);
      var (b, o) := Step(a, Resize(id, sz, now));
      var (c, w) := Step(a, WriteFile(id, A.Resized(s, sz), now));
      && (sz == |s| ==> b == a && o == NewAttr(Ok(attr)))
      && (sz != |s| ==> b == c && o == NewAttr(if w == Nothing(Ok(())) then Ok(attr) else Err(OutOfResource)))
      && (o.a.Ok? ==> A.ReadFile(b, id).Ok? && |A.ReadFile(b, id).value| == o.a.value.size == sz)
  {
    var s := A.ReadFile(a, id).value;
    ContentsWritten(a, id, A.Resized(s, sz), now);
    hide A.WriteFile, A.Resized;
  }

  // ---- Files ----

  /** A new file gets the least number not in use, takes one block, and is empty. */
  lemma Made(a: A.Abs, kind: Kind, now: u64, r: nat)
    requires D.SizesOk(a) && a.free > 0
    requires r < a.maxInodes && r !in a.files && forall q: nat | q < r :: q in a.files
    ensures Step(a, AllocInode(kind, now))
      == (a.(files := a.files[r := A.AFile(kind, [], now)], free := a.free - 1), Number(Ok(r + 1)))
  {
    A.FirstUnusedIsLeast(a.files, 0, a.maxInodes, r);
  }

  /** Without a block making one throws; without a number it fails, and the block is lost. */
  lemma NotMade(a: A.Abs, kind: Kind, now: u64)
    requires D.SizesOk(a)
    ensures a.free == 0 ==> Step(a, AllocInode(kind, now)) == (a, Number(Err(Thrown)))
    ensures a.free > 0 && (forall r: nat | r < a.maxInodes :: r in a.files) ==>
      Step(a, AllocInode(kind, now)) == (a.(free := a.free - 1), Number(Err(OutOfResource)))
  {
  }

  /** A served file is removed exactly if it has no block past its direct slots; its blocks are free then, and
      its number is not in use. */
  lemma Removed(a: A.Abs, id: nat)
    requires D.SizesOk(a) && A.ReadFile(a, id).Ok?
    ensures id > 0 && id - 1 in a.files && a.bs >= 52
    ensures var size := |A.ReadFile(a, id).value|;
      Step(a, RemoveFile(id)) ==
        if size > ((a.bs - 44) / 8 - 1) * a.bs then (a, Nothing(Err(Fault)))
        else (a.(files := a.files - {id - 1}, free := a.free + 1 + (size + a.bs - 1) / a.bs), Nothing(Ok(())))
  {
    var size := |A.ReadFile(a, id).value|;
    RoundedUp(size, a.bs);
    RowsHold(size, a.bs, (a.bs - 44) / 8 - 1);
    InodeRoom(a.bs);
    hide Direct, MaxFileSize;
  }

  // ---- Names ----

  /** A name leads where its first entry says. */
  lemma LookedUp(a: A.Abs, id: nat, name: Text, l: seq<Entry>, i: nat)
    requires D.SizesOk(a) && A.ReadFile(a, id).Ok? && Parse(A.ReadFile(a, id).value) == l
    requires i <= |l| && forall j | 0 <= j < i :: l[j].name != name
    ensures i < |l| && l[i].name == name ==> Step(a, Lookup(id, name)) == (a, Number(Ok(l[i].id)))
    ensures i == |l| ==> Step(a, Lookup(id, name)) == (a, Number(Err(NotExist)))
  {
    hide *;
    T.FirstFound(l, name, i);
    LookupStep(a, id, name, l);
  }

  lemma LookupStep(a: A.Abs, id: nat, name: Text, l: seq<Entry>)
    requires D.SizesOk(a) && A.ReadFile(a, id).Ok? && Parse(A.ReadFile(a, id).value) == l
    ensures var found := D.FindEntry(l, name);
      Step(a, Lookup(id, name)) == (a, Number(if found.Some? then Ok(found.value) else Err(NotExist)))
  {
    hide Parse, A.ReadFile, D.FindEntry;
  }

  /** Making an entry is looking it up, making a file, reading the directory and writing it back with the entry
      at its end, one after the other, up to the first of them that fails; a name that is found is refused. */
  lemma EntryInARow(a: A.Abs, id: nat, name: Text, kind: Kind, now: u64)
    requires D.SizesOk(a)
    ensures var made := Step(a, MkHelper(id, name, kind, now));
      var (b, alloc) := Step(a, AllocInode(kind, now));
      var found := Step(a, Lookup(id, name)).1;
      && found.Number? && alloc.Number? && D.SizesOk(b)
      && if found.n.Ok? then made == (a, Number(Err(AlreadyExist)))
         else if alloc.n.Err? then made == (b, alloc)
         else
           var read := Step(b, ReadFile(id)).1;
           && read.Text?
           && if read.t.Err? then made == (b, Number(Err(read.t.error)))
              else
                var s, newId := read.t.value, alloc.n.value;
                && newId <= 0xffff_ffff_ffff_ffff
                && var text := s + (if s == [] || s[|s| - 1] == 47 then [] else [47]) + name + [58] + Digits(newId);
                var (c, w) := Step(b, WriteFile(id, text, now));
                && w.Nothing? && made == (c, Number(if w.r.Ok? then Ok(newId) else Err(w.r.error)))
  {
  }

  /** Unlinking is looking the name up, asking what it leads to, removing that, reading the directory and writing
      it back without the name, one after the other, up to the first of them that fails; a directory is refused. */
  lemma UnlinkInARow(a: A.Abs, id: nat, name: Text, now: u64)
    requires D.SizesOk(a)
    ensures var gone := Step(a, Unlink(id, name, now));
      var found := Step(a, Lookup(id, name)).1;
      && found.Number?
      && if found.n.Err? then gone == (a, Nothing(Err(found.n.error)))
         else
           var t := found.n.value; var asked := Step(a, GetTypeAttr(t)).1; var (b, removed) := Step(a, RemoveFile(t));
           && asked.KindAttr? && removed.Nothing? && D.SizesOk(b)
           && if asked.ka.Err? then gone == (a, Nothing(Err(asked.ka.error)))
              else if asked.ka.value.0 == Directory then gone == (a, Nothing(Err(NotEmpty)))
              else if removed.r.Err? then gone == (b, removed)
              else
                var read := Step(b, ReadFile(id)).1;
                && read.Text?
                && if read.t.Err? then gone == (b, Nothing(Err(read.t.error)))
                   else gone == Step(b, WriteFile(id, Print(Without(Parse(read.t.value), name)), now))
  {
  }
}
