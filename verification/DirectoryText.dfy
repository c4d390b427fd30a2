/** Directories are files that hold their entries as text: name:id/name:id/... */
module DirectoryText {
  import opened Bytes

  type Text = seq<byte>

  const SLASH: byte := 47
  const COLON: byte := 58
  const PLUS: byte := 43
  const MINUS: byte := 45
  const ZERO: byte := 48
  const MAX_ID: u64 := 0xffff_ffff_ffff_ffff

  datatype Entry = Entry(name: Text, id: u64)

  // ---- Inode ids as text ----

  predicate IsDigit(c: byte) {
    ZERO <= c < ZERO + 10
  }

  predicate IsSpace(c: byte) {
    c == 32 || 9 <= c <= 13
  }

  /** The decimal numeral of `n`. */
  function Digits(n: nat): (t: Text)
    ensures t != [] && forall i | 0 <= i < |t| :: IsDigit(t[i])
  {
    if n < 10 then [ZERO + n] else Digits(n / 10) + [ZERO + n % 10]
  }

  function Pow10(k: nat): (p: nat)
    ensures p >= 1
  {
    if k == 0 then 1 else 10 * Pow10(k - 1)
  }

  /** How many digits `t` starts with. */
  function DigitRun(t: Text): (n: nat)
    ensures n <= |t|
  {
    if t == [] || !IsDigit(t[0]) then 0 else 1 + DigitRun(t[1..])
  }

  /** The number a row of digits denotes. */
  function Value(t: Text): nat
    requires forall i | 0 <= i < |t| :: IsDigit(t[i])
  {
    if t == [] then 0 else assert IsDigit(t[|t| - 1]); 10 * Value(t[..|t| - 1]) + (t[|t| - 1] - ZERO)
  }

  lemma {:induction false} DigitRunIsDigits(t: Text)
    ensures forall i | 0 <= i < DigitRun(t) :: IsDigit(t[i])
  {
    if t != [] && IsDigit(t[0]) {
      DigitRunIsDigits(t[1..]);
      forall i | 0 <= i < DigitRun(t) ensures IsDigit(t[i]) {
        if i > 0 { assert t[i] == t[1..][i - 1]; }
      }
    }
  }

  function SkipSpaces(t: Text): Text {
    if t != [] && IsSpace(t[0]) then SkipSpaces(t[1..]) else t
  }

  /** What reading an unsigned 64-bit number from a stream makes of `t`: leading spaces are skipped, a
      sign is taken, 0 if there are no digits, the largest id if they denote more than that. (If there is
      nothing but spaces, the original returns a variable it never set.) */
  function ParseId(t: Text): u64 {
    var u := SkipSpaces(t);
    var negative := u != [] && u[0] == MINUS;
    var v := if u != [] && u[0] in {PLUS, MINUS} then u[1..] else u;
    DigitRunIsDigits(v);
    var n := Value(v[..DigitRun(v)]);
    if n > MAX_ID then MAX_ID else if negative && n > 0 then MAX_ID - n + 1 else n
  }

  lemma {:induction false} ValueDigits(n: nat)
    ensures Value(Digits(n)) == n
  {
    if n >= 10 {
      ValueDigits(n / 10);
      assert Digits(n)[..|Digits(n)| - 1] == Digits(n / 10);
    }
  }

  lemma {:induction false} DigitRunStops(t: Text, u: Text)
    requires (forall i | 0 <= i < |t| :: IsDigit(t[i])) && (u == [] || !IsDigit(u[0]))
    ensures DigitRun(t + u) == |t|
  {
    if t == [] {
      assert t + u == u;
    } else {
      assert (t + u)[1..] == t[1..] + u;
      DigitRunStops(t[1..], u);
    }
  }

  /** What stands behind the digits is ignored. */
  lemma ParseLeadingDigits(id: u64, u: Text)
    requires u == [] || !IsDigit(u[0])
    ensures ParseId(Digits(id) + u) == id
  {
    var t := Digits(id) + u;
    assert IsDigit(Digits(id)[0]) && t[0] == Digits(id)[0];
    DigitRunStops(Digits(id), u);
    ValueDigits(id);
    assert t[..|Digits(id)|] == Digits(id);
  }

  /** Printed ids are read back. */
  lemma ParseDigits(id: u64)
    ensures ParseId(Digits(id)) == id
  {
    ParseLeadingDigits(id, []);
    assert Digits(id) + [] == Digits(id);
  }

  // ---- Printing ----

  function PrintEntry(e: Entry): Text {
    e.name + [COLON] + Digits(e.id)
  }

  /** The entries, with a slash between one and the next. */
  function Print(l: seq<Entry>): Text {
    if l == [] then []
    else if |l| == 1 then PrintEntry(l[0])
    else Print(l[..|l| - 1]) + [SLASH] + PrintEntry(l[|l| - 1])
  }

  method DirListToString(entries: seq<Entry>) returns (s: Text)
    ensures s == Print(entries)
  {
    s := [];
    var cnt := 0;
    while cnt < |entries|
      invariant cnt <= |entries|
      invariant s == Print(entries[..cnt]) + if 0 < cnt < |entries| then [SLASH] else []
    {
      s := s + entries[cnt].name + [COLON] + Digits(entries[cnt].id);
      if cnt < |entries| - 1 {
        s := s + [SLASH];
      }
      assert entries[..cnt + 1][..cnt] == entries[..cnt];
      cnt := cnt + 1;
    }
    assert entries[..cnt] == entries;
  }

  function AppendToDirectory(src: Text, name: Text, id: u64): Text {
    src + (if src != [] && src[|src| - 1] != SLASH then [SLASH] else []) + name + [COLON] + Digits(id)
  }

  // ---- Parsing ----

  /** The place of the first `c` in `t`, or the length of `t`. */
  function IndexOf(t: Text, c: byte): (n: nat)
    ensures n <= |t| && (n < |t| ==> t[n] == c)
    ensures forall i | 0 <= i < n :: t[i] != c
  {
    if t == [] || t[0] == c then 0
    else
      var n := 1 + IndexOf(t[1..], c);
      assert forall i | 0 < i < n :: t[i] == t[1..][i - 1];
      n
  }

  /** The entry in a piece of text between slashes; a piece without a colon holds none. */
  function ParseToken(t: Text): seq<Entry> {
    var p := IndexOf(t, COLON);
    if p == |t| then [] else [Entry(t[..p], ParseId(t[p + 1..]))]
  }

  function Parse(s: Text): seq<Entry>
    decreases |s|
  {
    if s == [] then []
    else
      var e := IndexOf(s, SLASH);
      ParseToken(s[..e]) + if e == |s| then [] else Parse(s[e + 1..])
  }

  lemma EmptyToken()
    ensures ParseToken([]) == [] && Parse([]) == []
  {
  }

  /** The first piece of a text, and the rest. */
  lemma ParseFirst(rest: Text, e: nat)
    requires e == IndexOf(rest, SLASH)
    ensures Parse(rest) == ParseToken(rest[..e]) + if e == |rest| then [] else Parse(rest[e + 1..])
  {
    hide ParseToken, IndexOf;
    if rest == [] { EmptyToken(); }
  }

  lemma Pieces(src: Text, start: nat, end: nat)
    requires start <= end <= |src|
    ensures src[start..][..end - start] == src[start..end]
    ensures end < |src| ==> src[start..][end - start + 1..] == src[end + 1..]
  {
  }

  /** What the text from `start` on holds: the piece up to the next slash, and the rest. */
  lemma ParseFrom(src: Text, start: nat, end: nat)
    requires start <= |src| && end == start + IndexOf(src[start..], SLASH)
    ensures Parse(src[start..]) == ParseToken(src[start..end]) + if end == |src| then [] else Parse(src[end + 1..])
  {
    hide *;
    ParseFirst(src[start..], end - start);
    Pieces(src, start, end);
  }

  /** Adds the entry a piece of text holds, if it holds one. */
  method AddToken(list: seq<Entry>, token: Text) returns (r: seq<Entry>)
    ensures r == list + ParseToken(token)
  {
    r := list;
    var pos := IndexOf(token, COLON);
    if pos != |token| {
      var idStr := token[pos + 1..];
      r := r + [Entry(token[..pos], ParseId(idStr))];
    }
  }

  method ParseDirectory(src: Text) returns (list: seq<Entry>)
    ensures list == Parse(src)
  {
    EmptyToken();
    hide Parse, ParseToken;
    list := [];
    if src == [] {
      return;
    }
    var start := 0;
    assert src[0..] == src;
    while start <= |src|
      invariant 0 <= start <= |src|
      invariant Parse(src) == list + Parse(src[start..])
      decreases |src| - start
    {
      var end := start + IndexOf(src[start..], SLASH);
      ParseFrom(src, start, end);
      ghost var was := list;
      if end > start {
        var token := src[start..end];
        list := AddToken(list, token);
      }
      assert end == start ==> src[start..end] == [];
      assert list == was + ParseToken(src[start..end]);
      if end == |src| {
        break;
      }
      assert was + (ParseToken(src[start..end]) + Parse(src[end + 1..])) == list + Parse(src[end + 1..]);
      start := end + 1;
    }
  }

  /** The entries not named `name`. */
  function Without(l: seq<Entry>, name: Text): seq<Entry> {
    if l == [] then []
    else Without(l[..|l| - 1], name) + if l[|l| - 1].name == name then [] else [l[|l| - 1]]
  }

  function RmFromDirectory(src: Text, name: Text): Text {
    Print(Without(Parse(src), name))
  }

  /** Parses, drops the entries with the name, and prints what is left. */
  method RemoveName(src: Text, name: Text) returns (r: Text)
    ensures r == RmFromDirectory(src, name)
  {
    hide Parse, Print;
    var list := ParseDirectory(src);
    var rest: seq<Entry> := [];
    assert list[..0] == [];
    for i := 0 to |list|
      invariant rest == Without(list[..i], name)
    {
      assert list[..i + 1][..i] == list[..i];
      if list[i].name != name {
        rest := rest + [list[i]];
      }
    }
    assert list[..|list|] == list;
    r := DirListToString(rest);
  }

  // ---- The codec laws ----

  /** A name the text can carry. */
  predicate CleanName(n: Text) {
    SLASH !in n && COLON !in n
  }

  predicate CleanNames(l: seq<Entry>) {
    forall i | 0 <= i < |l| :: CleanName(l[i].name)
  }

  lemma IndexOfUnique(t: Text, c: byte, n: nat)
    requires n <= |t| && (forall i | 0 <= i < n :: t[i] != c) && (n < |t| ==> t[n] == c)
    ensures IndexOf(t, c) == n
  {
  }

  /** Parsing a text is parsing what is before and what is after a slash. */
  lemma {:induction false} ParseConcat(s: Text, t: Text)
    ensures Parse(s + [SLASH] + t) == Parse(s) + Parse(t)
    decreases |s|
  {
    EmptyToken();
    hide ParseToken, IndexOf;
    var w := s + [SLASH] + t;
    var e := IndexOf(s, SLASH);
    IndexOfUnique(w, SLASH, e);
    assert w[..e] == s[..e];
    if e < |s| {
      assert w[e + 1..] == s[e + 1..] + [SLASH] + t;
      ParseConcat(s[e + 1..], t);
    } else {
      assert w[e + 1..] == t;
      if s != [] { assert s[..e] == s; }
    }
  }

  /** A text without slashes is one entry, up to its first colon and from there on. */
  lemma ParseOne(name: Text, rest: Text)
    requires CleanName(name) && SLASH !in rest
    ensures Parse(name + [COLON] + rest) == [Entry(name, ParseId(rest))]
  {
    hide ParseId;
    var t := name + [COLON] + rest;
    IndexOfUnique(t, SLASH, |t|);
    IndexOfUnique(t, COLON, |name|);
    assert t[..|t|] == t && t[|name| + 1..] == rest && t[..|name|] == name;
  }

  lemma NoSlashInDigits(id: u64)
    ensures SLASH !in Digits(id) && COLON !in Digits(id)
  {
    hide Digits;
  }

  /** A printed entry is read back. */
  lemma ParsePrintedEntry(e: Entry)
    requires CleanName(e.name)
    ensures Parse(PrintEntry(e)) == [e]
  {
    hide Parse, Digits, ParseId;
    NoSlashInDigits(e.id);
    ParseOne(e.name, Digits(e.id));
    ParseDigits(e.id);
  }

  /** Whatever is parsed has clean names. */
  lemma {:induction false} ParsedNamesClean(s: Text)
    ensures CleanNames(Parse(s))
    decreases |s|
  {
    hide *;
    EmptyToken();
    if s != [] {
      var e := IndexOf(s, SLASH);
      ParseFirst(s, e);
      TokenClean(s[..e]);
      if e < |s| {
        ParsedNamesClean(s[e + 1..]);
        CleanConcat(ParseToken(s[..e]), Parse(s[e + 1..]));
      } else {
        CleanConcat(ParseToken(s[..e]), []);
      }
    } else {
      CleanConcat([], []);
    }
  }

  lemma CleanConcat(l: seq<Entry>, m: seq<Entry>)
    ensures CleanNames([]) && (CleanNames(l) && CleanNames(m) ==> CleanNames(l + m))
  {
  }

  lemma TokenClean(t: Text)
    requires forall i | 0 <= i < |t| :: t[i] != SLASH
    ensures CleanNames(ParseToken(t))
  {
  }

  /** Printing and parsing a list with clean names gives the list back. */
  lemma {:induction false} ParsePrint(l: seq<Entry>)
    requires CleanNames(l)
    ensures Parse(Print(l)) == l
  {
    hide Parse, ParseId, PrintEntry;
    if l != [] {
      var init, last := l[..|l| - 1], l[|l| - 1];
      ParsePrintedEntry(last);
      if |l| > 1 {
        ParsePrint(init);
        ParseConcat(Print(init), PrintEntry(last));
      }
      assert l == init + [last];
    } else {
      EmptyToken();
    }
  }

  /** What an entry adds to a text, with or without a final slash, whatever its name is: the entries that the
      printed entry holds. */
  lemma AppendEntries(src: Text, name: Text, id: u64)
    ensures Parse(AppendToDirectory(src, name, id)) == Parse(src) + Parse(PrintEntry(Entry(name, id)))
  {
    hide *;
    var e := Entry(name, id);
    EmptyToken();
    Appended(src, e);
    if src == [] {
    } else if src[|src| - 1] == SLASH {
      var s := src[..|src| - 1];
      assert src == s + [SLASH] + [];
      ParseConcat(s, []);
      ParseConcat(s, PrintEntry(e));
    } else {
      ParseConcat(src, PrintEntry(e));
    }
  }

  /** That is the entry itself exactly if its name is clean. */
  lemma AppendParsed(src: Text, name: Text, id: u64)
    ensures Parse(AppendToDirectory(src, name, id)) == Parse(src) + [Entry(name, id)] <==> CleanName(name)
  {
    var r := AppendToDirectory(src, name, id);
    ParsedNamesClean(r);
    if CleanName(name) {
      AppendEntries(src, name, id);
      ParsePrintedEntry(Entry(name, id));
    }
    if Parse(r) == Parse(src) + [Entry(name, id)] {
      assert Parse(r)[|Parse(src)|].name == name;
    }
    hide Parse, PrintEntry, CleanName, AppendToDirectory;
  }

  /** A printed entry holds at least one. */
  lemma {:induction false} SomethingParsed(name: Text, id: u64)
    ensures Parse(PrintEntry(Entry(name, id))) != []
    decreases |name|
  {
    hide *;
    var e := IndexOf(name, SLASH);
    if e < |name| {
      var rest := name[e + 1..];
      SomethingParsed(rest, id);
      PrintedCut(name, e, id);
      ParseConcat(name[..e], PrintEntry(Entry(rest, id)));
    } else {
      OneToken(name, id);
    }
  }

  lemma PrintedCut(name: Text, e: nat, id: u64)
    requires e < |name| && name[e] == SLASH
    ensures PrintEntry(Entry(name, id)) == name[..e] + [SLASH] + PrintEntry(Entry(name[e + 1..], id))
  {
  }

  lemma OneToken(name: Text, id: u64)
    requires forall i | 0 <= i < |name| :: name[i] != SLASH
    ensures Parse(PrintEntry(Entry(name, id))) != []
  {
    var t, d := PrintEntry(Entry(name, id)), Digits(id);
    assert t == name + [COLON] + d && forall i | 0 <= i < |d| :: IsDigit(d[i]);
    hide Digits, ParseId;
    IndexOfUnique(t, SLASH, |t|);
    assert t[|name|] == COLON && t[..|t|] == t;
  }

  lemma Appended(src: Text, e: Entry)
    ensures AppendToDirectory(src, e.name, e.id)
      == if src == [] then PrintEntry(e)
         else if src[|src| - 1] == SLASH then src[..|src| - 1] + [SLASH] + PrintEntry(e)
         else src + [SLASH] + PrintEntry(e)
  {
  }

  lemma {:induction false} WithoutClean(l: seq<Entry>, name: Text)
    requires CleanNames(l)
    ensures CleanNames(Without(l, name))
  {
    if l != [] { WithoutClean(l[..|l| - 1], name); }
  }

  /** Removing a name from any text leaves the entries with other names, in order. */
  lemma RmParsed(src: Text, name: Text)
    ensures Parse(RmFromDirectory(src, name)) == Without(Parse(src), name)
  {
    ParsedNamesClean(src);
    WithoutClean(Parse(src), name);
    ParsePrint(Without(Parse(src), name));
  }

  /** Appending to a printed list prints the longer list. */
  lemma AppendPrinted(l: seq<Entry>, name: Text, id: u64)
    ensures AppendToDirectory(Print(l), name, id) == Print(l + [Entry(name, id)])
  {
    var m := l + [Entry(name, id)];
    assert m[..|m| - 1] == l;
    if l != [] {
      var last := l[|l| - 1];
      var d := Digits(last.id);
      assert IsDigit(d[|d| - 1]);
      assert Print(l)[|Print(l)| - 1] == d[|d| - 1];
    }
  }

  lemma WithoutStep(init: seq<Entry>, last: Entry, name: Text)
    ensures Without([], name) == []
    ensures Without(init + [last], name)
      == if last.name == name then Without(init, name) else Without(init, name) + [last]
  {
  }

  lemma PrintStep(init: seq<Entry>, last: Entry)
    ensures Print([]) == []
    ensures Print(init + [last]) == (if init == [] then [] else Print(init) + [SLASH]) + PrintEntry(last)
  {
    assert (init + [last])[..|init|] == init;
  }

  lemma {:induction false} PrintConcat(l: seq<Entry>, m: seq<Entry>)
    requires m != []
    ensures Print(l + m) == (if l == [] then [] else Print(l) + [SLASH]) + Print(m)
  {
    hide *;
    var init, last := m[..|m| - 1], m[|m| - 1];
    assert m == init + [last] && l + m == l + init + [last];
    PrintStep(l + init, last);
    PrintStep(init, last);
    if init == [] {
      assert l + init == l;
    } else {
      PrintConcat(l, init);
    }
  }

  /** A directory that is printed as it reads stays so exactly if the new entry, printed, is. */
  lemma AppendKeepsPrinted(l: seq<Entry>, name: Text, id: u64)
    requires Parse(Print(l)) == l
    ensures var t, e := AppendToDirectory(Print(l), name, id), PrintEntry(Entry(name, id));
      Print(Parse(t)) == t <==> Print(Parse(e)) == e
  {
    hide *;
    var e := Entry(name, id);
    var m, lead := Parse(PrintEntry(e)), if l == [] then [] else Print(l) + [SLASH];
    SomethingParsed(name, id);
    AppendEntries(Print(l), name, id);
    AppendPrinted(l, name, id);
    PrintStep(l, e);
    PrintConcat(l, m);
    assert (lead + Print(m))[|lead|..] == Print(m) && (lead + PrintEntry(e))[|lead|..] == PrintEntry(e);
  }

  /** A printed list shrinks when an entry is removed from it. */
  lemma {:induction false} RmShrinks(l: seq<Entry>, name: Text)
    ensures |Print(Without(l, name))| <= |Print(l)|
    ensures (exists i :: 0 <= i < |l| && l[i].name == name) ==> |Print(Without(l, name))| < |Print(l)|
  {
    hide *;
    if l == [] {
      WithoutStep([], Entry(name, 0), name);
    } else {
      var init, last := l[..|l| - 1], l[|l| - 1];
      assert l == init + [last];
      RmShrinks(init, name);
      WithoutStep(init, last, name);
      WithoutStep([], last, name);
      PrintStep(init, last);
      PrintStep(Without(init, name), last);
      LastEntry(last);
      if i: nat :| i < |l| && l[i].name == name {
        assert last.name == name || init[i].name == name;
      }
    }
  }

  lemma LastEntry(e: Entry)
    ensures |PrintEntry(e)| > 0
  {
  }
}
