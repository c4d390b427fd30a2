/** Lists of directory entries: what is found in them, and what appending and removing does to that. */
module EntryLists {
  import opened Bitmaps
  import opened DirectoryText
  import opened AbstractDirs

  /** The ids that the entries name. */
  function Ids(l: seq<Entry>): set<nat> {
    set i | 0 <= i < |l| :: l[i].id
  }

  /** No name and no id twice. */
  predicate Distinct(l: seq<Entry>) {
    forall i, j | 0 <= i < j < |l| :: l[i].name != l[j].name && l[i].id != l[j].id
  }

  lemma {:induction false} FindEntryNone(l: seq<Entry>, name: Text)
    ensures FindEntry(l, name).None? <==> forall i | 0 <= i < |l| :: l[i].name != name
  {
    if l != [] {
      FindEntryNone(l[1..], name);
      if forall i | 0 <= i < |l| :: l[i].name != name {
        assert forall i | 0 <= i < |l[1..]| :: l[1..][i] == l[i + 1];
      } else if l[0].name != name {
        var i :| 0 <= i < |l| && l[i].name == name;
        assert l[1..][i - 1] == l[i];
      }
    }
  }

  /** The entry that is found. */
  lemma {:induction false} FindEntryAt(l: seq<Entry>, name: Text) returns (i: nat)
    requires FindEntry(l, name).Some?
    ensures i < |l| && l[i].name == name && FindEntry(l, name) == Some(l[i].id)
  {
    if l[0].name == name {
      i := 0;
    } else {
      i := FindEntryAt(l[1..], name);
      i := i + 1;
    }
  }

  /** The first list is searched first. */
  lemma {:induction false} FindConcat(l: seq<Entry>, m: seq<Entry>, name: Text)
    ensures FindEntry(l + m, name) == match FindEntry(l, name) case Some(id) => Some(id) case None => FindEntry(m, name)
  {
    if l != [] {
      assert (l + m)[1..] == l[1..] + m;
      FindConcat(l[1..], m, name);
    } else {
      assert l + m == m;
    }
  }

  lemma FindAppended(l: seq<Entry>, e: Entry, name: Text)
    ensures FindEntry(l + [e], name) ==
      match FindEntry(l, name) case Some(id) => Some(id) case None => if e.name == name then Some(e.id) else None
  {
    FindConcat(l, [e], name);
    assert FindEntry([e][1..], name) == None;
  }

  /** What is left after removing a name. */
  lemma {:induction false} FindWithout(l: seq<Entry>, gone: Text, name: Text)
    ensures FindEntry(Without(l, gone), name) == if name == gone then None else FindEntry(l, name)
  {
    hide Without;
    if l != [] {
      var init, last := l[..|l| - 1], l[|l| - 1];
      assert l == init + [last];
      FindWithout(init, gone, name);
      WithoutStep(init, last, gone);
      FindAppended(init, last, name);
      FindAppended(Without(init, gone), last, name);
    } else {
      WithoutStep([], Entry(gone, 0), gone);
    }
  }

  lemma ConcatIds(l: seq<Entry>, m: seq<Entry>)
    ensures Ids(l + m) == Ids(l) + Ids(m)
  {
    forall id | id in Ids(l) + Ids(m) ensures id in Ids(l + m) {
      if i :| 0 <= i < |l| && l[i].id == id {
        assert (l + m)[i].id == id;
      } else {
        var i :| 0 <= i < |m| && m[i].id == id;
        assert (l + m)[|l| + i].id == id;
      }
    }
  }

  lemma AppendIds(l: seq<Entry>, e: Entry)
    ensures Ids(l + [e]) == Ids(l) + {e.id}
  {
    ConcatIds(l, [e]);
    assert [e][0] == e;
  }

  lemma LastIsNew(l: seq<Entry>)
    requires l != [] && Distinct(l)
    ensures var init, last := l[..|l| - 1], l[|l| - 1];
      Distinct(init) && last.id !in Ids(init) && forall i | 0 <= i < |init| :: init[i].name != last.name
  {
  }

  lemma AppendDistinct(l: seq<Entry>, e: Entry)
    requires Distinct(l) && e.id !in Ids(l) && forall i | 0 <= i < |l| :: l[i].name != e.name
    ensures Distinct(l + [e])
  {
  }

  lemma {:induction false} WithoutNone(l: seq<Entry>, name: Text)
    requires forall i | 0 <= i < |l| :: l[i].name != name
    ensures Without(l, name) == l
  {
    if l != [] { WithoutNone(l[..|l| - 1], name); }
  }

  /** Only entries of the list remain. */
  lemma {:induction false} WithoutPart(l: seq<Entry>, name: Text)
    ensures Ids(Without(l, name)) <= Ids(l)
    ensures forall i | 0 <= i < |Without(l, name)| :: Without(l, name)[i] in l
  {
    hide Ids;
    if l != [] {
      var init, last := l[..|l| - 1], l[|l| - 1];
      assert l == init + [last];
      WithoutPart(init, name);
      WithoutStep(init, last, name);
      AppendIds(init, last);
      AppendIds(Without(init, name), last);
    }
  }

  /** Removing the entry that is found removes one id. */
  lemma {:induction false} WithoutIds(l: seq<Entry>, name: Text)
    requires Distinct(l)
    ensures Distinct(Without(l, name))
    ensures FindEntry(l, name).Some? ==> Ids(Without(l, name)) == Ids(l) - {FindEntry(l, name).value}
  {
    hide Without, Ids, Distinct, FindEntry;
    if l == [] {
      WithoutStep([], Entry(name, 0), name);
      FindEntryNone(l, name);
    } else {
      var init, last := l[..|l| - 1], l[|l| - 1];
      assert l == init + [last];
      LastIsNew(l);
      WithoutIds(init, name);
      WithoutStep(init, last, name);
      WithoutPart(init, name);
      AppendIds(init, last);
      FindAppended(init, last, name);
      if last.name == name {
        WithoutNone(init, name);
        FindEntryNone(init, name);
      } else {
        AppendIds(Without(init, name), last);
        AppendDistinct(Without(init, name), last);
        if FindEntry(init, name).Some? {
          FoundIsNamed(init, name);
        }
      }
    }
  }

  lemma FoundIsNamed(l: seq<Entry>, name: Text)
    requires FindEntry(l, name).Some?
    ensures FindEntry(l, name).value in Ids(l)
  {
  }
}
