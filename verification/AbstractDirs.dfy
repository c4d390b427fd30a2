/** Directories of the abstract file system: what looking up, making and unlinking a name does. */
module AbstractDirs {
  import opened Bytes
  import opened Results
  import opened Bitmaps
  import opened Inodes
  import opened AbstractFs
  import opened DirectoryText

  /** The inode of the first entry with the name. */
  function FindEntry(l: seq<Entry>, name: Text): Option<u64> {
    if l == [] then None
    else if l[0].name == name then Some(l[0].id)
    else FindEntry(l[1..], name)
  }

  function ReadDirectory(a: Abs, id: nat): Result<seq<Entry>> {
    match ReadFile(a, id)
    case Err(e) => Err(e)
    case Ok(s) => Ok(Parse(s))
  }

  function Lookup(a: Abs, id: nat, name: Text): Result<nat> {
    match ReadDirectory(a, id)
    case Err(e) => Err(e)
    case Ok(l) =>
      match FindEntry(l, name)
      case None => Err(NotExist)
      case Some(i) => Ok(i)
  }

  predicate SizesOk(a: Abs) {
    BlockSizeOk(a.bs) && a.maxInodes < 0x1_0000_0000_0000_0000
  }

  /** Any failed lookup, not only of a missing name, leads to a new inode; an inode that cannot be entered
      in the directory stays. */
  function MkHelper(a: Abs, id: nat, name: Text, kind: Kind, now: u64): (Abs, Result<nat>)
    requires SizesOk(a)
  {
    if Lookup(a, id, name).Ok? then (a, Err(AlreadyExist))
    else
      var (b, res) := AllocInode(a, kind, now);
      match res
      case Err(e) => (b, Err(e))
      case Ok(newId) =>
        match ReadFile(b, id)
        case Err(e) => (b, Err(e))
        case Ok(s) =>
          var (c, wr) := WriteFile(b, id, AppendToDirectory(s, name, newId), now);
          (c, if wr.Ok? then Ok(newId) else Err(wr.error))
  }

  /** The file goes first, then its entry. */
  function Unlink(a: Abs, parent: nat, name: Text, now: u64): (Abs, Result<()>)
    requires SizesOk(a)
  {
    match Lookup(a, parent, name)
    case Err(e) => (a, Err(e))
    case Ok(tid) =>
      match GetKind(a, tid)
      case Err(e) => (a, Err(e))
      case Ok(kind) =>
        if kind == Directory then (a, Err(NotEmpty))
        else
          var (b, rm) := RemoveFile(a, tid);
          match rm
          case Err(e) => (b, Err(e))
          case Ok(_) =>
            match ReadFile(b, parent)
            case Err(e) => (b, Err(e))
            case Ok(s) => WriteFile(b, parent, RmFromDirectory(s, name), now)
  }
}
