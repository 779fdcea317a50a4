/** The `customdays` field: a comma-separated list of weekday names.

    Every scan in the scheduler starts by turning this text into the set of
    weekday numbers it names: split at each comma, strip surrounding white
    space, lower-case, and look the result up in the table of English
    weekday names. A piece that is not a weekday name contributes nothing. */
module WeekdayNames {
  import opened Wrappers

  /** The lookup table, indexed by weekday number (0 = Sunday). */
  const Names: seq<string> :=
    ["sunday", "monday", "tuesday", "wednesday", "thursday", "friday", "saturday"]

  /** The weekday number of a lower-case name, if it is one. */
  function LookupWeekday(name: string): (r: Option<int>)
    ensures r.Some? ==> 0 <= r.value < 7 && Names[r.value] == name
    ensures r.None? ==> forall w :: 0 <= w < 7 ==> Names[w] != name
  {
    if name == "sunday" then Some(0)
    else if name == "monday" then Some(1)
    else if name == "tuesday" then Some(2)
    else if name == "wednesday" then Some(3)
    else if name == "thursday" then Some(4)
    else if name == "friday" then Some(5)
    else if name == "saturday" then Some(6)
    else None
  }

  // ---------------------------------------------------------------------
  // String.prototype.split and Array.prototype.join with one separator

  /** Joins the parts with the separator between neighbours; no parts give "". */
  function Join(parts: seq<string>, sep: char): string
  {
    if |parts| == 0 then ""
    else if |parts| == 1 then parts[0]
    else parts[0] + [sep] + Join(parts[1..], sep)
  }

  /** Splits at every occurrence of the separator. As in JavaScript there is
      always at least one part, and the empty string gives one empty part. */
  function Split(s: string, sep: char): (parts: seq<string>)
    ensures |parts| >= 1
    ensures forall i :: 0 <= i < |parts| ==> sep !in parts[i]
    decreases |s|
  {
    if |s| == 0 then [""]
    else
      var rest := Split(s[1..], sep);
      if s[0] == sep then [""] + rest
      else
        var parts := [[s[0]] + rest[0]] + rest[1..];
        assert parts[1..] == rest[1..];
        parts
  }

  /** Joining the parts of a split with the same separator gives back the string. */
  lemma {:induction false} JoinSplit(s: string, sep: char)
    ensures Join(Split(s, sep), sep) == s
    decreases |s|
  {
    if |s| > 0 {
      var rest := Split(s[1..], sep);
      JoinSplit(s[1..], sep);
      var parts := Split(s, sep);
      if s[0] == sep {
        assert parts == [""] + rest && parts[1..] == rest;
        assert s == [sep] + s[1..];
      } else {
        assert parts == [[s[0]] + rest[0]] + rest[1..];
        assert parts[1..] == rest[1..];
        assert s == [s[0]] + s[1..];
        if |rest| > 1 {
          assert Join(rest, sep) == rest[0] + [sep] + Join(rest[1..], sep);
          assert Join(parts, sep) == [s[0]] + rest[0] + [sep] + Join(rest[1..], sep);
        }
      }
    }
  }

  /** Splitting a piece free of separators, followed by anything, keeps the
      piece whole at the front of the first part. */
  lemma {:induction false} SplitPrefix(a: string, rest: string, sep: char)
    requires sep !in a
    ensures Split(a + rest, sep) == [a + Split(rest, sep)[0]] + Split(rest, sep)[1..]
    decreases |a|
  {
    var p := Split(rest, sep);
    if |a| > 0 {
      var s := a + rest;
      assert s[0] == a[0] != sep;
      assert s[1..] == a[1..] + rest;
      SplitPrefix(a[1..], rest, sep);
      var r := Split(s[1..], sep);
      assert r == [a[1..] + p[0]] + p[1..];
      assert r[0] == a[1..] + p[0] && r[1..] == p[1..];
      assert Split(s, sep) == [[s[0]] + r[0]] + r[1..];
      assert [a[0]] + (a[1..] + p[0]) == a + p[0];
    } else {
      assert a + rest == rest;
      assert a + p[0] == p[0];
    }
  }

  /** Splitting undoes joining when no part contains the separator. */
  lemma {:induction false} SplitJoin(parts: seq<string>, sep: char)
    requires |parts| >= 1
    requires forall i :: 0 <= i < |parts| ==> sep !in parts[i]
    ensures Split(Join(parts, sep), sep) == parts
    decreases |parts|
  {
    if |parts| == 1 {
      SplitPrefix(parts[0], "", sep);
      assert parts[0] + "" == parts[0];
    } else {
      var tail := Join(parts[1..], sep);
      SplitJoin(parts[1..], sep);
      assert Join(parts, sep) == parts[0] + ([sep] + tail);
      SplitPrefix(parts[0], [sep] + tail, sep);
      assert ([sep] + tail)[0] == sep && ([sep] + tail)[1..] == tail;
      assert Split([sep] + tail, sep) == [""] + parts[1..];
      assert parts[0] + "" == parts[0];
      assert parts == [parts[0]] + parts[1..];
    }
  }

  // ---------------------------------------------------------------------
  // String.prototype.trim and toLowerCase

  /** The characters JavaScript's trim removes: white space (tab, vertical
      tab, form feed, space, no-break space, byte order mark and the Unicode
      space separators) and line terminators. */
  predicate IsJsWhitespace(c: char)
  {
    var n := c as int;
    n == 0x09 || n == 0x0A || n == 0x0B || n == 0x0C || n == 0x0D || n == 0x20
    || n == 0xA0 || n == 0x1680 || (0x2000 <= n <= 0x200A)
    || n == 0x2028 || n == 0x2029 || n == 0x202F || n == 0x205F
    || n == 0x3000 || n == 0xFEFF
  }

  /** Drops leading white space. */
  function TrimStart(s: string): string
    decreases |s|
  {
    if |s| > 0 && IsJsWhitespace(s[0]) then TrimStart(s[1..]) else s
  }

  /** Drops trailing white space. */
  function TrimEnd(s: string): string
    decreases |s|
  {
    if |s| > 0 && IsJsWhitespace(s[|s| - 1]) then TrimEnd(s[..|s| - 1]) else s
  }

  /** TrimStart keeps a suffix of the string, everything it drops is white
      space, and what it keeps does not start with white space. */
  lemma {:induction false} TrimStartRemovesLeadingSpace(s: string)
    ensures |TrimStart(s)| <= |s| && TrimStart(s) == s[|s| - |TrimStart(s)|..]
    ensures forall k :: 0 <= k < |s| - |TrimStart(s)| ==> IsJsWhitespace(s[k])
    ensures |TrimStart(s)| > 0 ==> !IsJsWhitespace(TrimStart(s)[0])
    decreases |s|
  {
    if |s| > 0 && IsJsWhitespace(s[0]) {
      var t := TrimStart(s[1..]);
      TrimStartRemovesLeadingSpace(s[1..]);
      assert s[1..][|s| - 1 - |t|..] == s[|s| - |t|..];
      forall k | 0 <= k < |s| - |t| ensures IsJsWhitespace(s[k]) {
        if k > 0 { assert s[k] == s[1..][k - 1]; }
      }
    }
  }

  /** TrimEnd keeps a prefix of the string, everything it drops is white
      space, and what it keeps does not end with white space. */
  lemma {:induction false} TrimEndRemovesTrailingSpace(s: string)
    ensures |TrimEnd(s)| <= |s| && TrimEnd(s) == s[..|TrimEnd(s)|]
    ensures forall k :: |TrimEnd(s)| <= k < |s| ==> IsJsWhitespace(s[k])
    ensures |TrimEnd(s)| > 0 ==> !IsJsWhitespace(TrimEnd(s)[|TrimEnd(s)| - 1])
    decreases |s|
  {
    if |s| > 0 && IsJsWhitespace(s[|s| - 1]) {
      var init := s[..|s| - 1];
      var t := TrimEnd(init);
      TrimEndRemovesTrailingSpace(init);
      assert init[..|t|] == s[..|t|];
      forall k | |t| <= k < |s| ensures IsJsWhitespace(s[k]) {
        if k < |s| - 1 { assert s[k] == init[k]; }
      }
    }
  }

  function Trim(s: string): string
  {
    TrimEnd(TrimStart(s))
  }

  /** Leading white space does not survive TrimStart. */
  lemma {:induction false} TrimStartSkips(pre: string, x: string)
    requires forall k :: 0 <= k < |pre| ==> IsJsWhitespace(pre[k])
    ensures TrimStart(pre + x) == TrimStart(x)
    decreases |pre|
  {
    if |pre| > 0 {
      assert (pre + x)[0] == pre[0];
      assert (pre + x)[1..] == pre[1..] + x;
      TrimStartSkips(pre[1..], x);
    } else {
      assert pre + x == x;
    }
  }

  /** Trailing white space does not survive TrimEnd. */
  lemma {:induction false} TrimEndSkips(x: string, post: string)
    requires forall k :: 0 <= k < |post| ==> IsJsWhitespace(post[k])
    ensures TrimEnd(x + post) == TrimEnd(x)
    decreases |post|
  {
    if |post| > 0 {
      var s := x + post;
      assert s[|s| - 1] == post[|post| - 1];
      assert s[..|s| - 1] == x + post[..|post| - 1];
      TrimEndSkips(x, post[..|post| - 1]);
    } else {
      assert x + post == x;
    }
  }

  /** Trimming removes exactly the white space around a word that begins and
      ends with something else. */
  lemma TrimPadded(pre: string, word: string, post: string)
    requires forall k :: 0 <= k < |pre| ==> IsJsWhitespace(pre[k])
    requires forall k :: 0 <= k < |post| ==> IsJsWhitespace(post[k])
    requires |word| > 0 && !IsJsWhitespace(word[0]) && !IsJsWhitespace(word[|word| - 1])
    ensures Trim(pre + word + post) == word
  {
    assert pre + word + post == pre + (word + post);
    TrimStartSkips(pre, word + post);
    assert (word + post)[0] == word[0];
    assert TrimStart(word + post) == word + post;
    TrimEndSkips(word, post);
  }

  /** ASCII upper-case letters become lower-case; every other character is kept. */
  function LowerChar(c: char): char
  {
    if 'A' <= c <= 'Z' then (c as int + 32) as char else c
  }

  function ToLower(s: string): (t: string)
    ensures |t| == |s|
  {
    seq(|s|, i requires 0 <= i < |s| => LowerChar(s[i]))
  }

  // ---------------------------------------------------------------------
  // Parsing the customdays field

  /** The normalised name a piece of the list stands for. */
  function NormaliseName(piece: string): string
  {
    ToLower(Trim(piece))
  }

  /** The weekday numbers named in a comma-separated list: the set the
      scans test each date's weekday against. Pieces that are not weekday
      names, including empty pieces and the empty list, name nothing. */
  function ParseWeekdays(customdays: string): (days: set<int>)
    ensures forall w :: w in days ==> 0 <= w < 7
  {
    NamedWeekdays(Split(customdays, ','))
  }

  /** The weekday numbers the pieces name, each piece normalised first. */
  function NamedWeekdays(parts: seq<string>): (days: set<int>)
    ensures forall w :: w in days ==> 0 <= w < 7
  {
    if |parts| == 0 then {}
    else
      var rest := NamedWeekdays(parts[1..]);
      match LookupWeekday(NormaliseName(parts[0]))
      case Some(w) => {w} + rest
      case None => rest
  }

  /** Exactly the weekdays some piece names are in the set. */
  lemma {:induction false} NamedWeekdaysMembers(parts: seq<string>, w: int)
    ensures w in NamedWeekdays(parts) <==>
      exists i :: 0 <= i < |parts| && LookupWeekday(NormaliseName(parts[i])) == Some(w)
  {
    if |parts| > 0 {
      NamedWeekdaysMembers(parts[1..], w);
      if w in NamedWeekdays(parts[1..]) {
        var i :| 0 <= i < |parts[1..]| && LookupWeekday(NormaliseName(parts[1..][i])) == Some(w);
        assert parts[i + 1] == parts[1..][i];
      }
      if i :| 0 <= i < |parts| && LookupWeekday(NormaliseName(parts[i])) == Some(w) {
        if i > 0 {
          assert parts[1..][i - 1] == parts[i];
        }
      }
    }
  }

  /** The same, with the lookup unfolded: a piece names weekday `w`
      exactly when, normalised, it is the table's name for `w`. */
  lemma NamedWeekdaysByName(parts: seq<string>, w: int)
    ensures w in NamedWeekdays(parts) <==>
      0 <= w < 7 && exists i :: 0 <= i < |parts| && NormaliseName(parts[i]) == Names[w]
  {
    NamedWeekdaysMembers(parts, w);
    if 0 <= w < 7 {
      LookupTableName(w);
    }
  }

  /** A weekday is parsed from the list exactly when one of its
      comma-separated pieces, trimmed and lower-cased, is that weekday's
      name. */
  lemma ParseWeekdaysMembers(customdays: string, w: int)
    ensures w in ParseWeekdays(customdays) <==>
      0 <= w < 7 &&
      exists i :: 0 <= i < |Split(customdays, ',')| &&
        NormaliseName(Split(customdays, ',')[i]) == Names[w]
  {
    var parts := Split(customdays, ',');
    NamedWeekdaysByName(parts, w);
    if w in ParseWeekdays(customdays) {
      var i :| 0 <= i < |parts| && NormaliseName(parts[i]) == Names[w];
      assert NormaliseName(Split(customdays, ',')[i]) == Names[w];
    }
  }

  /** A weekday name in any mixture of upper and lower case, with any white
      space around it, is recognised. */
  lemma LookupIgnoresCaseAndSpace(pre: string, word: string, post: string, w: int)
    requires forall k :: 0 <= k < |pre| ==> IsJsWhitespace(pre[k])
    requires forall k :: 0 <= k < |post| ==> IsJsWhitespace(post[k])
    requires 0 <= w < 7 && ToLower(word) == Names[w]
    ensures LookupWeekday(NormaliseName(pre + word + post)) == Some(w)
  {
    var name := Names[w];
    assert |word| == |name| > 0;
    assert LowerChar(word[0]) == name[0];
    assert LowerChar(word[|word| - 1]) == name[|name| - 1];
    TrimPadded(pre, word, post);
  }

  /** The list form the creation form writes: the selected names joined with commas. */
  function JoinNames(ds: seq<int>): string
    requires forall i :: 0 <= i < |ds| ==> 0 <= ds[i] < 7
  {
    Join(NamesOf(ds), ',')
  }

  function NamesOf(ds: seq<int>): (names: seq<string>)
    requires forall i :: 0 <= i < |ds| ==> 0 <= ds[i] < 7
    ensures |names| == |ds|
    ensures forall i :: 0 <= i < |ds| ==> names[i] == Names[ds[i]]
  {
    if |ds| == 0 then [] else [Names[ds[0]]] + NamesOf(ds[1..])
  }

  predicate IsLowerWord(s: string)
  {
    |s| > 0 && forall k :: 0 <= k < |s| ==> 'a' <= s[k] <= 'z'
  }

  lemma NamesAreLowerWords(w: int)
    requires 0 <= w < 7
    ensures IsLowerWord(Names[w])
  {
    var name := Names[w];
    if w == 0 { assert name == "sunday"; }
    else if w == 1 { assert name == "monday"; }
    else if w == 2 { assert name == "tuesday"; }
    else if w == 3 { assert name == "wednesday"; }
    else if w == 4 { assert name == "thursday"; }
    else if w == 5 { assert name == "friday"; }
    else { assert name == "saturday"; }
  }

  /** Every name in the table looks up to its own weekday number. */
  lemma LookupTableName(w: int)
    requires 0 <= w < 7
    ensures LookupWeekday(Names[w]) == Some(w)
  {
    if w == 0 { assert Names[w] == "sunday"; }
    else if w == 1 { assert Names[w] == "monday"; }
    else if w == 2 { assert Names[w] == "tuesday"; }
    else if w == 3 { assert Names[w] == "wednesday"; }
    else if w == 4 { assert Names[w] == "thursday"; }
    else if w == 5 { assert Names[w] == "friday"; }
    else { assert Names[w] == "saturday"; }
  }

  /** A name from the table is already in normal form. */
  lemma NormaliseTableName(w: int)
    requires 0 <= w < 7
    ensures NormaliseName(Names[w]) == Names[w]
  {
    var name := Names[w];
    NamesAreLowerWords(w);
    TrimPadded("", name, "");
    assert "" + name + "" == name;
    assert ToLower(name) == name;
  }

  /** When every piece of the list names a weekday, the list names exactly those weekdays. */
  lemma {:induction false} ParseAllNamed(parts: seq<string>, ds: seq<int>)
    requires |parts| == |ds|
    requires forall i :: 0 <= i < |ds| ==> LookupWeekday(NormaliseName(parts[i])) == Some(ds[i])
    ensures NamedWeekdays(parts) == set x | x in ds
  {
    if |parts| > 0 {
      forall i | 0 <= i < |ds| - 1
        ensures LookupWeekday(NormaliseName(parts[1..][i])) == Some(ds[1..][i])
      {
        assert parts[1..][i] == parts[i + 1] && ds[1..][i] == ds[i + 1];
      }
      ParseAllNamed(parts[1..], ds[1..]);
      NamedWeekdaysCons(parts, ds[0]);
      ElementsCons(ds);
    }
  }

  /** A first piece that names weekday `w` adds `w` to what the rest names. */
  lemma NamedWeekdaysCons(parts: seq<string>, w: int)
    requires |parts| > 0
    requires LookupWeekday(NormaliseName(parts[0])) == Some(w)
    ensures NamedWeekdays(parts) == {w} + NamedWeekdays(parts[1..])
  {
  }

  lemma ElementsCons(ds: seq<int>)
    requires |ds| > 0
    ensures (set x | x in ds) == {ds[0]} + (set x | x in ds[1..])
  {
    assert ds == [ds[0]] + ds[1..];
  }

  /** An empty list names no weekday. */
  lemma EmptyListNamesNothing()
    ensures ParseWeekdays("") == {}
  {
    assert Split("", ',') == [""];
    assert NormaliseName("") == "";
    assert LookupWeekday("") == None;
  }

  /** Parsing the joined names of some weekdays gives back exactly those weekdays. */
  lemma ParseJoinedNames(ds: seq<int>)
    requires forall i :: 0 <= i < |ds| ==> 0 <= ds[i] < 7
    ensures ParseWeekdays(JoinNames(ds)) == set x | x in ds
  {
    var names := NamesOf(ds);
    if |ds| == 0 {
      EmptyListNamesNothing();
    } else {
      forall i | 0 <= i < |names| ensures ',' !in names[i] {
        NamesAreLowerWords(ds[i]);
      }
      SplitJoin(names, ',');
      forall i | 0 <= i < |names|
        ensures LookupWeekday(NormaliseName(names[i])) == Some(ds[i])
      {
        NormaliseTableName(ds[i]);
        LookupTableName(ds[i]);
      }
      ParseAllNamed(names, ds);
    }
  }
}
