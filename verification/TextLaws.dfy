/** Directory texts, character by character: how numbers and entries are written, and how any text is read. */
module TextLaws {
  import opened Bytes
  import opened Bitmaps
  import opened Regions
  import opened DirectoryText
  import D = AbstractDirs

  // ---- Numbers ----

  /** Dividing by ten and then by `m` is dividing by ten times `m`. */
  lemma DivTen(n: nat, m: nat)
    requires m > 0
    ensures n / 10 / m == n / (10 * m)
  {
    var q, r := DivMod(n / 10, m);
    var s, t := DivMod(n, 10 * m);
    assert n == 10 * (q * m + r) + n % 10;
    assert 10 * (q * m) == q * (10 * m);
    RowColUnique(n, 10 * m, q, 10 * r + n % 10);
    RowColDivMod(n, 10 * m);
  }

  lemma DigitsStep(n: nat)
    ensures n < 10 ==> Digits(n) == [48 + n]
    ensures n >= 10 ==> Digits(n) == Digits(n / 10) + [48 + n % 10]
  {
  }

  lemma PowersOfTen(i: nat)
    ensures Pow10(0) == 1 && Pow10(i + 1) == 10 * Pow10(i)
  {
  }

  /** A number is written in decimal, without leading zeros: the digit at place `i` from the right is the digit
      of the number at that place, ... */
  lemma {:induction false} DigitsAt(n: nat, i: nat)
    ensures var t := Digits(n); i < |t| ==> t[|t| - 1 - i] == 48 + n / Pow10(i) % 10
    ensures Pow10(0) == 1 && Pow10(i + 1) == 10 * Pow10(i)
  {
    hide *;
    DigitsStep(n);
    PowersOfTen(i);
    if n >= 10 && i > 0 {
      DigitsAt(n / 10, i - 1);
      DivTen(n, Pow10(i - 1));
    }
  }

  /** ... and there are as many digits as it takes. */
  lemma {:induction false} DigitsCount(n: nat)
    ensures var t := Digits(n); 0 < |t| && n < Pow10(|t|) && (n == 0 ==> |t| == 1) && (n > 0 ==> Pow10(|t| - 1) <= n)
  {
    hide *;
    DigitsStep(n);
    PowersOfTen(0);
    if n >= 10 {
      var len := |Digits(n / 10)|;
      DigitsCount(n / 10);
      PowersOfTen(len);
      PowersOfTen(len - 1);
    }
  }

  lemma {:induction false} ValueOfZeros(t: Text, u: Text)
    requires forall i | 0 <= i < |t| :: t[i] == 48
    requires forall i | 0 <= i < |u| :: IsDigit(u[i])
    ensures Value(t + u) == Value(u)
    decreases |t| + |u|
  {
    var w := t + u;
    if u != [] {
      assert w[..|w| - 1] == t + u[..|u| - 1];
      ValueOfZeros(t, u[..|u| - 1]);
    } else if t != [] {
      assert w[..|w| - 1] == t[..|t| - 1] + u;
      ValueOfZeros(t[..|t| - 1], u);
    }
  }

  predicate StartsBlank(t: Text) {
    t != [] && (t[0] == 32 || 9 <= t[0] <= 13)
  }

  lemma {:induction false} SpacesSkipped(spaces: Text, t: Text)
    requires forall i | 0 <= i < |spaces| :: spaces[i] == 32 || 9 <= spaces[i] <= 13
    requires !StartsBlank(t)
    ensures SkipSpaces(spaces + t) == t
  {
    if spaces != [] {
      assert (spaces + t)[1..] == spaces[1..] + t;
      SpacesSkipped(spaces[1..], t);
    } else {
      assert spaces + t == t;
    }
  }

  /** A text without spaces before it is read by its sign, if it has one, and its digits. */
  lemma ReadAs(t: Text, sign: Text, u: Text, digits: Text)
    requires t == sign + u && !StartsBlank(t)
    requires sign == [43] || sign == [45] || (sign == [] && (t == [] || (t[0] != 43 && t[0] != 45)))
    requires DigitRun(u) == |digits| && u[..|digits|] == digits && forall i | 0 <= i < |digits| :: IsDigit(digits[i])
    ensures var v := Value(digits);
      ParseId(t) == if v > 0xffff_ffff_ffff_ffff then 0xffff_ffff_ffff_ffff
                    else if sign == [45] && v > 0 then 0x1_0000_0000_0000_0000 - v else v
  {
    hide DigitRun, Value;
    assert SkipSpaces(t) == t;
    if sign == [] {
      assert t == u;
    } else {
      assert t[0] == sign[0] && t[1..] == u;
    }
  }

  lemma SignedRead(sign: Text, digits: Text, rest: Text)
    requires sign == [] || sign == [43] || sign == [45]
    requires forall i | 0 <= i < |digits| :: IsDigit(digits[i])
    requires rest == [] || !IsDigit(rest[0])
    requires digits == [] && sign == [] ==> rest == [] || (rest[0] != 43 && rest[0] != 45 && !StartsBlank(rest))
    ensures var t, v := sign + digits + rest, Value(digits);
      && !StartsBlank(t)
      && ParseId(t) == if v > 0xffff_ffff_ffff_ffff then 0xffff_ffff_ffff_ffff
                       else if sign == [45] && v > 0 then 0x1_0000_0000_0000_0000 - v else v
  {
    var t, u := sign + digits + rest, digits + rest;
    DigitRunStops(digits, rest);
    hide *;
    Joined(sign, digits, rest);
    if sign == [] { Front(digits, rest); }
    SignFirst(sign, u);
    ReadAs(t, sign, u, digits);
  }

  lemma Joined(sign: Text, digits: Text, rest: Text)
    ensures sign + digits + rest == sign + (digits + rest) && (digits + rest)[..|digits|] == digits
    ensures sign == [] ==> sign + digits + rest == digits + rest
  {
  }

  lemma Front(digits: Text, rest: Text)
    requires forall i | 0 <= i < |digits| :: IsDigit(digits[i])
    requires digits == [] ==> rest == [] || (rest[0] != 43 && rest[0] != 45 && !StartsBlank(rest))
    ensures var u := digits + rest; !StartsBlank(u) && (u == [] || (u[0] != 43 && u[0] != 45))
  {
    if digits == [] {
      assert digits + rest == rest;
    } else {
      assert IsDigit(digits[0]) && (digits + rest)[0] == digits[0];
    }
  }

  lemma SignFirst(sign: Text, u: Text)
    requires sign == [43] || sign == [45] || (sign == [] && !StartsBlank(u))
    ensures !StartsBlank(sign + u)
  {
    if sign == [] { assert sign + u == u; }
  }

  /** A number is read as a 64-bit stream would read it: spaces before it, its sign, leading zeros, and whatever
      follows the digits make no difference, too large a number is the largest, and a negative one counts down
      from 2^64. */
  lemma IdRead(spaces: Text, sign: Text, zeros: Text, n: nat, rest: Text)
    requires forall i | 0 <= i < |spaces| :: spaces[i] == 32 || 9 <= spaces[i] <= 13
    requires sign == [] || sign == [43] || sign == [45]
    requires forall i | 0 <= i < |zeros| :: zeros[i] == 48
    requires rest == [] || !(48 <= rest[0] <= 57)
    ensures ParseId(spaces + (sign + (zeros + Digits(n)) + rest)) ==
      if n > 0xffff_ffff_ffff_ffff then 0xffff_ffff_ffff_ffff
      else if sign == [45] && n > 0 then 0x1_0000_0000_0000_0000 - n else n
  {
    var digits := zeros + Digits(n);
    ValueOfZeros(zeros, Digits(n));
    ValueDigits(n);
    SignedRead(sign, digits, rest);
    IgnoresSpaces(spaces, sign + digits + rest);
    hide *;
  }

  lemma IgnoresSpaces(spaces: Text, t: Text)
    requires forall i | 0 <= i < |spaces| :: spaces[i] == 32 || 9 <= spaces[i] <= 13
    requires !StartsBlank(t)
    ensures ParseId(spaces + t) == ParseId(t)
  {
    SpacesSkipped(spaces, t);
    SpacesSkipped([], t);
    assert [] + t == t;
    hide Value, DigitRun, SkipSpaces;
  }

  /** Without digits it is 0. */
  lemma NoIdRead(spaces: Text, sign: Text, rest: Text)
    requires forall i | 0 <= i < |spaces| :: spaces[i] == 32 || 9 <= spaces[i] <= 13
    requires sign == [] || sign == [43] || sign == [45]
    requires rest == [] || !(48 <= rest[0] <= 57)
    requires sign == [] && rest != [] ==> !(rest[0] in {32, 43, 45} || 9 <= rest[0] <= 13)
    ensures ParseId(spaces + (sign + rest)) == 0
  {
    SignedRead(sign, [], rest);
    assert sign + [] + rest == sign + rest;
    IgnoresSpaces(spaces, sign + rest);
  }

  // ---- Entries ----

  /** How entries are written: `name:id`, with a slash between one and the next. */
  lemma TextWritten(name: Text, id: u64, l: seq<Entry>, m: seq<Entry>, src: Text)
    ensures Print([]) == [] && Print([Entry(name, id)]) == name + [58] + Digits(id)
    ensures l != [] && m != [] ==> Print(l + m) == Print(l) + [47] + Print(m)
    ensures AppendToDirectory(src, name, id)
      == src + (if src == [] || src[|src| - 1] == 47 then [] else [47]) + name + [58] + Digits(id)
  {
    if l != [] && m != [] { PrintConcat(l, m); }
    hide Print, Digits;
    PrintStep([], Entry(name, id));
    assert [] + [Entry(name, id)] == [Entry(name, id)];
  }

  /** How any text is read: in pieces between the slashes, each of them up to its first colon and from there on;
      a piece without a colon is passed over. */
  lemma TextRead(s: Text, t: Text, name: Text, rest: Text)
    ensures Parse([]) == [] && Parse(s + [47] + t) == Parse(s) + Parse(t)
    ensures 47 !in name && 58 !in name ==> Parse(name) == []
    ensures 47 !in name && 58 !in name && 47 !in rest ==> Parse(name + [58] + rest) == [Entry(name, ParseId(rest))]
  {
    ParseConcat(s, t);
    EmptyToken();
    if 47 !in name && 58 !in name {
      if 47 !in rest { ParseOne(name, rest); }
      NoColon(name);
    }
    hide Parse, ParseId;
  }

  lemma NoColon(t: Text)
    requires SLASH !in t && COLON !in t
    ensures Parse(t) == []
  {
    IndexOfUnique(t, SLASH, |t|);
    IndexOfUnique(t, COLON, |t|);
    assert t[..|t|] == t;
  }

  /** Removing a name keeps all other entries, in their order, and none of that name. */
  lemma {:induction false} Filtered(l: seq<Entry>, m: seq<Entry>, e: Entry, name: Text)
    ensures Without([], name) == [] && Without([e], name) == if e.name == name then [] else [e]
    ensures Without(l + m, name) == Without(l, name) + Without(m, name)
    decreases |m|
  {
    hide *;
    WithoutStep([], e, name);
    assert [] + [e] == [e];
    if m == [] {
      assert l + m == l;
    } else {
      var init, last := m[..|m| - 1], m[|m| - 1];
      assert m == init + [last] && l + m == l + init + [last];
      Filtered(l, init, e, name);
      WithoutStep(l + init, last, name);
      WithoutStep(init, last, name);
    }
  }

  /** The entry that is found is the first one with the name. */
  lemma {:induction false} FirstFound(l: seq<Entry>, name: Text, i: nat)
    requires i <= |l| && forall j | 0 <= j < i :: l[j].name != name
    ensures i == |l| ==> D.FindEntry(l, name) == None
    ensures i < |l| && l[i].name == name ==> D.FindEntry(l, name) == Some(l[i].id)
  {
    if i > 0 {
      forall j | 0 <= j < i - 1 ensures l[1..][j].name != name { assert l[1..][j] == l[j + 1]; }
      FirstFound(l[1..], name, i - 1);
    }
  }
}
