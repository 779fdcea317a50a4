/** The YYYY-MM-DD text form of calendar dates.

    The application stores every date as the date part of an ISO 8601
    timestamp and compares, sorts and tests dates for equality as strings.
    This module defines that text form and proves that, for the years it
    can write (0000 through 9999), string order is chronological order and
    string equality is date equality, which is what lets the rest of the
    model compare day numbers instead. */
module IsoDates {
  import opened Wrappers
  import opened Calendar

  function Pow10(n: nat): (p: nat)
    ensures p >= 1
  {
    if n == 0 then 1 else 10 * Pow10(n - 1)
  }

  predicate IsDigit(c: char)
  {
    '0' <= c <= '9'
  }

  function DigitChar(d: int): (c: char)
    requires 0 <= d < 10
    ensures IsDigit(c)
  {
    ('0' as int + d) as char
  }

  /** The last `width` decimal digits of `n`, zero-padded, most significant first. */
  function Digits(n: nat, width: nat): (s: string)
    ensures |s| == width
    ensures forall i :: 0 <= i < |s| ==> IsDigit(s[i])
  {
    if width == 0 then "" else Digits(n / 10, width - 1) + [DigitChar(n % 10)]
  }

  /** The number a string of decimal digits denotes. */
  function DigitsValue(s: string): nat
    requires forall i :: 0 <= i < |s| ==> IsDigit(s[i])
  {
    if |s| == 0 then 0
    else
      assert IsDigit(s[|s| - 1]);
      10 * DigitsValue(s[..|s| - 1]) + (s[|s| - 1] as int - '0' as int)
  }

  /** Reading back the digits of a number that fits the width gives the number. */
  lemma {:induction false} DigitsValueOfDigits(n: nat, width: nat)
    requires n < Pow10(width)
    ensures DigitsValue(Digits(n, width)) == n
  {
    if width > 0 {
      var s := Digits(n, width);
      assert s[..|s| - 1] == Digits(n / 10, width - 1);
      DigitsValueOfDigits(n / 10, width - 1);
    }
  }

  /** Writing out the value of a digit string of the same width gives the string. */
  lemma {:induction false} DigitsOfDigitsValue(s: string)
    requires forall i :: 0 <= i < |s| ==> IsDigit(s[i])
    ensures DigitsValue(s) < Pow10(|s|)
    ensures Digits(DigitsValue(s), |s|) == s
  {
    if |s| > 0 {
      var init := s[..|s| - 1];
      DigitsOfDigitsValue(init);
      var v := DigitsValue(s);
      assert v / 10 == DigitsValue(init);
      assert s == init + [s[|s| - 1]];
    }
  }

  /** JavaScript's `<` on strings: the first differing character decides, and
      a proper prefix comes first. */
  predicate LexLess(a: string, b: string)
    decreases |a|
  {
    if |a| == 0 then |b| > 0
    else if |b| == 0 then false
    else if a[0] != b[0] then a[0] < b[0]
    else LexLess(a[1..], b[1..])
  }

  /** Comparing two strings that start with parts of the same length: the
      first parts decide unless they are equal. */
  lemma {:induction false} LexLessAppend(a1: string, a2: string, b1: string, b2: string)
    requires |a1| == |b1|
    ensures LexLess(a1 + a2, b1 + b2) <==> LexLess(a1, b1) || (a1 == b1 && LexLess(a2, b2))
    decreases |a1|
  {
    if |a1| == 0 {
      assert a1 + a2 == a2 && b1 + b2 == b2;
    } else {
      assert (a1 + a2)[0] == a1[0] && (b1 + b2)[0] == b1[0];
      assert (a1 + a2)[1..] == a1[1..] + a2 && (b1 + b2)[1..] == b1[1..] + b2;
      LexLessAppend(a1[1..], a2, b1[1..], b2);
      if a1[0] == b1[0] {
        assert a1 == b1 <==> a1[1..] == b1[1..] by {
          if a1[1..] == b1[1..] {
            assert a1 == [a1[0]] + a1[1..] && b1 == [b1[0]] + b1[1..];
          }
        }
      }
    }
  }

  /** Zero-padded numbers of one width compare as strings exactly as they
      compare as numbers. */
  lemma {:induction false} DigitsOrder(x: nat, y: nat, width: nat)
    requires x < Pow10(width) && y < Pow10(width)
    ensures LexLess(Digits(x, width), Digits(y, width)) <==> x < y
    ensures Digits(x, width) == Digits(y, width) <==> x == y
  {
    if width == 0 {
    } else {
      DigitsOrder(x / 10, y / 10, width - 1);
      LexLessAppend(Digits(x / 10, width - 1), [DigitChar(x % 10)], Digits(y / 10, width - 1), [DigitChar(y % 10)]);
      DigitsValueOfDigits(x, width);
      DigitsValueOfDigits(y, width);
    }
  }

  /** The YYYY-MM-DD form of a calendar date. */
  function FormatIso(c: CivilDate): (s: string)
    requires ValidCivil(c)
    ensures |s| == 10 && s[4] == '-' && s[7] == '-'
  {
    Digits(c.year, 4) + "-" + Digits(c.month, 2) + "-" + Digits(c.day, 2)
  }

  predicate AllDigits(s: string)
  {
    forall i :: 0 <= i < |s| ==> IsDigit(s[i])
  }

  /** Reads a YYYY-MM-DD string; anything else, or a day that does not exist
      in the calendar, is refused. */
  function ParseIso(s: string): Option<CivilDate>
  {
    if |s| == 10 && s[4] == '-' && s[7] == '-'
      && AllDigits(s[..4]) && AllDigits(s[5..7]) && AllDigits(s[8..])
    then
      var c := CivilDate(DigitsValue(s[..4]), DigitsValue(s[5..7]), DigitsValue(s[8..]));
      if ValidCivil(c) then Some(c) else None
    else None
  }

  /** Parsing undoes formatting. */
  lemma ParseFormatIso(c: CivilDate)
    requires ValidCivil(c)
    ensures ParseIso(FormatIso(c)) == Some(c)
  {
    var s := FormatIso(c);
    assert s[..4] == Digits(c.year, 4);
    assert s[5..7] == Digits(c.month, 2);
    assert s[8..] == Digits(c.day, 2);
    DigitsValueOfDigits(c.year, 4);
    DigitsValueOfDigits(c.month, 2);
    DigitsValueOfDigits(c.day, 2);
  }

  /** Formatting undoes parsing: a string that parses is already in the
      canonical form. */
  lemma FormatParseIso(s: string)
    requires ParseIso(s).Some?
    ensures FormatIso(ParseIso(s).value) == s
  {
    var c := ParseIso(s).value;
    var y, m, d := s[..4], s[5..7], s[8..];
    assert |s| == 10 && s[4] == '-' && s[7] == '-';
    assert AllDigits(y) && AllDigits(m) && AllDigits(d);
    assert c == CivilDate(DigitsValue(y), DigitsValue(m), DigitsValue(d));
    DigitsOfDigitsValue(y);
    DigitsOfDigitsValue(m);
    DigitsOfDigitsValue(d);
    FormatIsoParts(c);
    IsoStringParts(s);
  }

  /** A ten-character string with dashes at 4 and 7 is its three digit
      groups joined by dashes. */
  lemma IsoStringParts(s: string)
    requires |s| == 10 && s[4] == '-' && s[7] == '-'
    ensures s == s[..4] + ("-" + (s[5..7] + ("-" + s[8..])))
  {
    var t := s[..4] + ("-" + (s[5..7] + ("-" + s[8..])));
    assert |t| == 10;
    forall i | 0 <= i < 10 ensures t[i] == s[i] {
    }
  }

  /** The YYYY-MM-DD form, grouped as year, then dash and the rest. */
  lemma FormatIsoParts(c: CivilDate)
    requires ValidCivil(c)
    ensures FormatIso(c) == Digits(c.year, 4) + ("-" + (Digits(c.month, 2) + ("-" + Digits(c.day, 2))))
  {
  }

  /** Two strings that start with parts of the same length are equal exactly
      when both parts are. */
  lemma AppendEqual(a1: string, a2: string, b1: string, b2: string)
    requires |a1| == |b1|
    ensures a1 + a2 == b1 + b2 <==> a1 == b1 && a2 == b2
  {
    if a1 + a2 == b1 + b2 {
      assert a1 == (a1 + a2)[..|a1|] && b1 == (b1 + b2)[..|b1|];
      assert a2 == (a1 + a2)[|a1|..] && b2 == (b1 + b2)[|b1|..];
    }
  }

  /** String order on YYYY-MM-DD forms is calendar order, and the forms are
      equal exactly when the dates are. */
  lemma FormatIsoOrder(a: CivilDate, b: CivilDate)
    requires ValidCivil(a) && ValidCivil(b)
    ensures LexLess(FormatIso(a), FormatIso(b)) <==> CivilBefore(a, b)
    ensures FormatIso(a) == FormatIso(b) <==> a == b
  {
    var ya, yb := Digits(a.year, 4), Digits(b.year, 4);
    var ma, mb := Digits(a.month, 2), Digits(b.month, 2);
    var da, db := Digits(a.day, 2), Digits(b.day, 2);
    DigitsOrder(a.year, b.year, 4);
    DigitsOrder(a.month, b.month, 2);
    DigitsOrder(a.day, b.day, 2);
    FormatIsoParts(a);
    FormatIsoParts(b);
    var ta, tb := "-" + (ma + ("-" + da)), "-" + (mb + ("-" + db));
    LexLessAppend(ya, ta, yb, tb);
    AppendEqual(ya, ta, yb, tb);
    LexLessAppend("-", ma + ("-" + da), "-", mb + ("-" + db));
    AppendEqual("-", ma + ("-" + da), "-", mb + ("-" + db));
    LexLessAppend(ma, "-" + da, mb, "-" + db);
    AppendEqual(ma, "-" + da, mb, "-" + db);
    LexLessAppend("-", da, "-", db);
    AppendEqual("-", da, "-", db);
  }

  /** String order on YYYY-MM-DD forms is chronological order, and string
      equality is equality of days. */
  lemma IsoOrderIsChronological(a: CivilDate, b: CivilDate)
    requires ValidCivil(a) && ValidCivil(b)
    ensures LexLess(FormatIso(a), FormatIso(b)) <==> DayNumber(a) < DayNumber(b)
    ensures FormatIso(a) == FormatIso(b) <==> DayNumber(a) == DayNumber(b)
  {
    FormatIsoOrder(a, b);
    DayNumberOrder(a, b);
  }
}
