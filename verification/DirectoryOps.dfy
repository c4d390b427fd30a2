/** Directory operations on a volume. */
module DirectoryOps {
  import opened Bytes
  import opened Results
  import opened Inodes
  import opened DirectoryText
  import opened FileSystem
  import A = AbstractFs
  import D = AbstractDirs

  method ReadDirectory(fs: FileOperation, id: nat) returns (r: Result<seq<Entry>>)
    requires fs.Valid()
    ensures r == D.ReadDirectory(fs.View(), id)
  {
    hide FileOperation.Valid, FileOperation.View, A.ReadFile;
    var res := fs.ReadFile(id);
    if res.Err? {
      return Err(res.error);
    }
    var list := ParseDirectory(res.value);
    r := Ok(list);
  }

  method Lookup(fs: FileOperation, id: nat, name: Text) returns (r: Result<nat>)
    requires fs.Valid()
    ensures r == D.Lookup(fs.View(), id, name)
  {
    hide FileOperation.Valid, FileOperation.View, D.ReadDirectory;
    var rd := ReadDirectory(fs, id);
    if rd.Err? {
      return Err(rd.error);
    }
    var list := rd.value;
    var i := 0;
    assert list[0..] == list;
    while i < |list|
      invariant 0 <= i <= |list|
      invariant D.FindEntry(list, name) == D.FindEntry(list[i..], name)
    {
      assert list[i..][1..] == list[i + 1..];
      if list[i].name == name {
        return Ok(list[i].id);
      }
      i := i + 1;
    }
    r := Err(NotExist);
  }

  /** Creates a file or a directory and enters it in its parent. */
  method MkHelper(fs: FileOperation, id: nat, name: Text, kind: Kind, now: u64) returns (r: Result<nat>)
    requires fs.Valid()
    modifies fs`files, fs.bm`disk, fs.bm.data
    ensures fs.Valid() && D.SizesOk(fs.View())
    ensures D.SizesOk(old(fs.View())) && (fs.View(), r) == D.MkHelper(old(fs.View()), id, name, kind, now)
  {
    hide FileOperation.Valid, FileOperation.View, D.Lookup, A.ReadFile, A.WriteFile, AppendToDirectory;
    Sizes(fs);
    var lookupRes := Lookup(fs, id, name);
    if lookupRes.Ok? {
      return Err(AlreadyExist);
    }
    var newInode := fs.AllocInode(kind, now);
    Sizes(fs);
    if newInode.Err? {
      return Err(newInode.error);
    }
    IdInRange(old(fs.View()), kind, now);
    hide A.AllocInode;
    var rd := fs.ReadFile(id);
    if rd.Err? {
      return Err(rd.error);
    }
    var wr := fs.WriteFile(id, AppendToDirectory(rd.value, name, newInode.value), now);
    Sizes(fs);
    if wr.Err? {
      return Err(wr.error);
    }
    r := Ok(newInode.value);
  }

  lemma Sizes(fs: FileOperation)
    requires fs.Valid()
    ensures D.SizesOk(fs.View())
  {
  }

  lemma IdInRange(a: A.Abs, kind: Kind, now: u64)
    requires D.SizesOk(a)
    ensures A.AllocInode(a, kind, now).1.Ok? ==> A.AllocInode(a, kind, now).1.value <= a.maxInodes
  {
  }

  /** Removes a file and its entry in the parent. */
  method Unlink(fs: FileOperation, parent: nat, name: Text, now: u64) returns (r: Result<()>)
    requires fs.Valid()
    modifies fs`files, fs.bm`disk, fs.bm.data
    ensures fs.Valid() && D.SizesOk(fs.View())
    ensures D.SizesOk(old(fs.View())) && (fs.View(), r) == D.Unlink(old(fs.View()), parent, name, now)
  {
    hide FileOperation.Valid, FileOperation.View, D.Lookup, A.ReadFile, A.WriteFile, A.GetKind, A.RemoveFile,
      RmFromDirectory;
    Sizes(fs);
    var target := Lookup(fs, parent, name);
    if target.Err? {
      return Err(target.error);
    }
    var kind := fs.GetKind(target.value);
    if kind.Err? {
      return Err(kind.error);
    }
    if kind.value == Directory {
      return Err(NotEmpty);
    }
    var rm := fs.RemoveFile(target.value);
    Sizes(fs);
    if rm.Err? {
      return rm;
    }
    var rd := fs.ReadFile(parent);
    if rd.Err? {
      return Err(rd.error);
    }
    var updated := RemoveName(rd.value, name);
    r := fs.WriteFile(parent, updated, now);
    Sizes(fs);
  }
}
