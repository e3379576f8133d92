/** `HttpService._validateDate` (fopd/services/http_service.py), the check the service applies
    to a `YYYY-MM-DD` date before asking the observation server for data.

    The check splits the date at every `-`, requires the first part to be four characters
    long without looking at them, parses the second and third parts with Python's `int()`,
    and bounds them: month in 0..12 with a two-character text, day in 0..31 with a text of
    any length. Only `ValueError` is caught, so a date with fewer than three parts raises
    `IndexError` out of the method. */
module HttpService {
  import opened Basics

  // ---------------------------------------------------------------- str.split

  /** Python's `s.split(sep)` for a one-character separator: the texts between separators,
      empty ones included, so there is always one more part than separators. */
  function Split(s: string, sep: char): (parts: seq<string>)
    ensures |parts| >= 1
    ensures forall i :: 0 <= i < |parts| ==> sep !in parts[i]
    decreases |s|
  {
    if s == [] then [""]
    else
      var rest := Split(s[1..], sep);
      if s[0] == sep then [""] + rest
      else [[s[0]] + rest[0]] + rest[1..]
  }

  /** Python's `sep.join(parts)`. */
  function Join(parts: seq<string>, sep: char): string
    requires |parts| >= 1
    decreases |parts|
  {
    if |parts| == 1 then parts[0] else parts[0] + [sep] + Join(parts[1..], sep)
  }

  /** Joining the parts back with the separator gives the original text. */
  lemma {:induction false} JoinSplit(s: string, sep: char)
    ensures Join(Split(s, sep), sep) == s
    decreases |s|
  {
    if s != [] {
      JoinSplit(s[1..], sep);
      var rest := Split(s[1..], sep);
      if s[0] != sep {
        if |rest| == 1 {
          assert Split(s, sep) == [[s[0]] + rest[0]];
        } else {
          assert Split(s, sep)[1..] == rest[1..];
        }
      }
    }
  }

  /** There is one more part than there are separators. */
  lemma {:induction false} SplitCount(s: string, sep: char)
    ensures |Split(s, sep)| == multiset(s)[sep] + 1
    decreases |s|
  {
    if s != [] {
      SplitCount(s[1..], sep);
      assert s == [s[0]] + s[1..];
    }
  }

  /** Splitting a joined list of separator-free texts gives the list back. */
  lemma {:induction false} SplitJoin(parts: seq<string>, sep: char)
    requires |parts| >= 1
    requires forall i :: 0 <= i < |parts| ==> sep !in parts[i]
    ensures Split(Join(parts, sep), sep) == parts
    decreases |parts|
  {
    if |parts| == 1 {
      SplitWithout(parts[0], sep);
    } else {
      SplitJoin(parts[1..], sep);
      SplitPrefix(parts[0], Join(parts[1..], sep), sep);
      assert parts == [parts[0]] + parts[1..];
    }
  }

  /** A text without the separator is a single part. */
  lemma {:induction false} SplitWithout(s: string, sep: char)
    requires sep !in s
    ensures Split(s, sep) == [s]
    decreases |s|
  {
    if s != [] {
      SplitWithout(s[1..], sep);
      assert [s[0]] + s[1..] == s;
    }
  }

  /** A separator-free prefix followed by the separator becomes the first part on its own. */
  lemma {:induction false} SplitPrefix(a: string, b: string, sep: char)
    requires sep !in a
    ensures Split(a + [sep] + b, sep) == [a] + Split(b, sep)
    decreases |a|
  {
    if a == [] {
      assert a + [sep] + b == [sep] + b;
      assert ([sep] + b)[1..] == b;
    } else {
      assert (a + [sep] + b)[1..] == a[1..] + [sep] + b;
      SplitPrefix(a[1..], b, sep);
      assert [a[0]] + a[1..] == a;
    }
  }

  // ---------------------------------------------------------------- int()

  predicate IsDigit(c: char) { '0' <= c <= '9' }

  function DigitValue(c: char): (d: nat)
    requires IsDigit(c)
    ensures d <= 9
  {
    c as int - '0' as int
  }

  /** The ASCII characters `int()` skips around a number: space, `\t`, `\n`, `\v`, `\f`, `\r`
      and the separators `\x1c`..`\x1f`. */
  predicate IsSpace(c: char) {
    c == ' ' || 9 <= c as int <= 13 || 28 <= c as int <= 31
  }

  /** `s.strip()` as `int()` applies it. */
  function Strip(s: string): (t: string)
    ensures |t| <= |s|
    ensures t != [] ==> !IsSpace(t[0]) && !IsSpace(t[|t| - 1])
    ensures s == [] || (!IsSpace(s[0]) && !IsSpace(s[|s| - 1])) ==> t == s
    decreases |s|
  {
    if s == [] then []
    else if IsSpace(s[0]) then Strip(s[1..])
    else if IsSpace(s[|s| - 1]) then Strip(s[..|s| - 1])
    else s
  }

  /** Only whitespace lies outside `s[i..j]`. */
  ghost predicate SpacesAround(s: string, i: int, j: int) {
    && 0 <= i <= j <= |s|
    && (forall k :: 0 <= k < i ==> IsSpace(s[k]))
    && (forall k :: j <= k < |s| ==> IsSpace(s[k]))
  }

  lemma SpacesAroundAfterFirst(s: string, i: int, j: int)
    requires s != [] && IsSpace(s[0]) && SpacesAround(s[1..], i, j)
    ensures SpacesAround(s, i + 1, j + 1) && s[1..][i..j] == s[i + 1..j + 1]
  {
    forall k | 0 < k < i + 1 ensures IsSpace(s[k]) {
      assert s[k] == s[1..][k - 1];
    }
    forall k | j + 1 <= k < |s| ensures IsSpace(s[k]) {
      assert s[k] == s[1..][k - 1];
    }
  }

  lemma SpacesAroundBeforeLast(s: string, i: int, j: int)
    requires s != [] && IsSpace(s[|s| - 1]) && SpacesAround(s[..|s| - 1], i, j)
    ensures SpacesAround(s, i, j) && s[..|s| - 1][i..j] == s[i..j]
  {
    forall k | 0 <= k < i ensures IsSpace(s[k]) {
      assert s[k] == s[..|s| - 1][k];
    }
    forall k | j <= k < |s| - 1 ensures IsSpace(s[k]) {
      assert s[k] == s[..|s| - 1][k];
    }
  }

  /** `strip()` removes whitespace at the two ends and nothing else. */
  lemma {:induction false} StripOnlySpaces(s: string)
    ensures exists i, j :: SpacesAround(s, i, j) && Strip(s) == s[i..j]
    decreases |s|
  {
    if s == [] {
      assert SpacesAround(s, 0, 0) && Strip(s) == s[0..0];
    } else if IsSpace(s[0]) {
      StripOnlySpaces(s[1..]);
      var i, j :| SpacesAround(s[1..], i, j) && Strip(s[1..]) == s[1..][i..j];
      SpacesAroundAfterFirst(s, i, j);
      assert SpacesAround(s, i + 1, j + 1) && Strip(s) == s[i + 1..j + 1];
    } else if IsSpace(s[|s| - 1]) {
      StripOnlySpaces(s[..|s| - 1]);
      var i, j :| SpacesAround(s[..|s| - 1], i, j) && Strip(s[..|s| - 1]) == s[..|s| - 1][i..j];
      SpacesAroundBeforeLast(s, i, j);
      assert SpacesAround(s, i, j) && Strip(s) == s[i..j];
    } else {
      assert SpacesAround(s, 0, |s|) && Strip(s) == s[0..|s|];
    }
  }

  /** Decimal digits, with single underscores allowed between two digits (PEP 515). */
  predicate IsNumeral(s: string) {
    && s != [] && IsDigit(s[0]) && IsDigit(s[|s| - 1])
    && (forall i :: 0 <= i < |s| ==> IsDigit(s[i]) || s[i] == '_')
    && (forall i :: 0 <= i < |s| - 1 && s[i] == '_' ==> IsDigit(s[i + 1]))
  }

  /** The value of a numeral, underscores skipped. */
  function NumeralValue(s: string): nat
    requires forall i :: 0 <= i < |s| ==> IsDigit(s[i]) || s[i] == '_'
    decreases |s|
  {
    if s == [] then 0
    else
      var init := s[..|s| - 1];
      if s[|s| - 1] == '_' then NumeralValue(init)
      else NumeralValue(init) * 10 + DigitValue(s[|s| - 1])
  }

  /** Python's `int(s)` on a `str`, for ASCII input: `None` where it raises `ValueError`. */
  function PyInt(s: string): (n: Option<int>)
    ensures var t := Strip(s);
      n.Some? <==> IsNumeral(t) || (t != [] && (t[0] == '+' || t[0] == '-') && IsNumeral(t[1..]))
    ensures IsNumeral(Strip(s)) ==> n == Some(NumeralValue(Strip(s)) as int)
    ensures var t := Strip(s);
      t != [] && (t[0] == '+' || t[0] == '-') && IsNumeral(t[1..])
      ==> n == Some(if t[0] == '-' then -(NumeralValue(t[1..]) as int) else NumeralValue(t[1..]) as int)
  {
    var t := Strip(s);
    if t != [] && (t[0] == '+' || t[0] == '-') then
      var body := t[1..];
      var magnitude: int := if IsNumeral(body) then NumeralValue(body) else 0;
      if IsNumeral(body) then Some(if t[0] == '-' then -magnitude else magnitude) else None
    else if IsNumeral(t) then Some(NumeralValue(t))
    else None
  }

  /** A numeral with nothing around it reads as its value. */
  lemma PyIntNumeral(s: string)
    requires IsNumeral(s)
    ensures PyInt(s) == Some(NumeralValue(s) as int)
  {
    assert Strip(s) == s;
  }

  /** The digit character for 0..9. */
  function Digit(n: nat): (c: char)
    requires n < 10
    ensures IsDigit(c) && DigitValue(c) == n
  {
    ('0' as int + n) as char
  }

  /** Two decimal digits for 0..99, as a date writes a month or a day. */
  function TwoDigits(n: nat): (s: string)
    requires n < 100
    ensures |s| == 2 && IsDigit(s[0]) && IsDigit(s[1])
  {
    [Digit(n / 10), Digit(n % 10)]
  }

  /** `int()` reads two digits back as the number they were written from. */
  lemma TwoDigitsParse(n: nat)
    requires n < 100
    ensures PyInt(TwoDigits(n)) == Some(n)
  {
    var s := TwoDigits(n);
    assert Strip(s) == s;
    assert s[..1][..0] == [];
    assert NumeralValue(s[..1]) == n / 10;
  }

  // ---------------------------------------------------------------- _validateDate

  /** What `_validateDate` does: return a boolean, or raise `IndexError`. */
  datatype DateCheck = Returns(valid: bool) | RaisesIndexError

  /** `_validateDate(startDate, endDate)`; `endDate` is never read. */
  function ValidateDate(startDate: string, endDate: string): (r: DateCheck)
    ensures var parts := Split(startDate, '-');
      r == RaisesIndexError <==> |parts[0]| == 4 && (|parts| == 1 || (|parts| == 2 && PyInt(parts[1]).Some?))
    ensures r == Returns(true) ==>
      var parts := Split(startDate, '-');
      && |parts| >= 3 && |parts[0]| == 4 && |parts[1]| == 2
      && PyInt(parts[1]).Some? && 0 <= PyInt(parts[1]).value <= 12
      && PyInt(parts[2]).Some? && 0 <= PyInt(parts[2]).value <= 31
  {
    var start := Split(startDate, '-');
    if |start[0]| != 4 then Returns(false)
    else if |start| < 2 then RaisesIndexError
    else
      match PyInt(start[1])
      case None => Returns(false)
      case Some(month) =>
        if |start| < 3 then RaisesIndexError
        else
          match PyInt(start[2])
          case None => Returns(false)
          case Some(day) =>
            if |start[1]| != 2 || month > 12 || month < 0 then Returns(false)
            else if day < 0 || day > 31 then Returns(false)
            else Returns(true)
  }

  /** A date written `YYYY-MM-DD` with two-digit month and day passes exactly when the month
      is at most 12 and the day at most 31, whatever the four year characters are: `00` is
      accepted as a month and as a day, and the year is not checked to be a number. */
  lemma ValidateWrittenDate(year: string, month: nat, day: nat, endDate: string)
    requires |year| == 4 && '-' !in year
    requires month < 100 && day < 100
    ensures ValidateDate(year + "-" + TwoDigits(month) + "-" + TwoDigits(day), endDate) == Returns(month <= 12 && day <= 31)
  {
    var parts := [year, TwoDigits(month), TwoDigits(day)];
    var s := year + "-" + TwoDigits(month) + "-" + TwoDigits(day);
    assert Join(parts, '-') == s by {
      assert Join(parts[1..], '-') == TwoDigits(month) + "-" + TwoDigits(day) by {
        assert parts[1..][1..] == [TwoDigits(day)];
      }
    }
    SplitJoin(parts, '-');
    TwoDigitsParse(month);
    TwoDigitsParse(day);
  }

  /** Anything after a third `-` is ignored. */
  lemma ValidateIgnoresExtraParts(date: string, extra: string, endDate: string)
    requires |Split(date, '-')| == 3
    ensures ValidateDate(date + "-" + extra, endDate) == ValidateDate(date, endDate)
  {
    SplitAppend(date, extra, '-');
    var parts, all := Split(date, '-'), Split(date + "-" + extra, '-');
    assert all[0] == parts[0] && all[1] == parts[1] && all[2] == parts[2];
  }

  /** One step of `Split`: the parts of a text that starts with `c`. */
  lemma SplitCons(c: char, t: string, sep: char)
    ensures Split([c] + t, sep) ==
      if c == sep then [""] + Split(t, sep) else [[c] + Split(t, sep)[0]] + Split(t, sep)[1..]
  {
    assert ([c] + t)[0] == c && ([c] + t)[1..] == t;
  }

  /** Gluing a character onto the first part commutes with appending more parts. */
  lemma GlueFirstAppend(c: char, p: seq<string>, q: seq<string>)
    requires |p| >= 1
    ensures [[c] + (p + q)[0]] + (p + q)[1..] == ([[c] + p[0]] + p[1..]) + q
  {
    assert (p + q)[0] == p[0] && (p + q)[1..] == p[1..] + q;
  }

  /** The parts of two texts joined by the separator are the parts of the one, then those of
      the other. */
  lemma {:induction false} SplitAppend(a: string, b: string, sep: char)
    ensures Split(a + [sep] + b, sep) == Split(a, sep) + Split(b, sep)
    decreases |a|
  {
    if a == [] {
      SplitPrefix(a, b, sep);
    } else {
      var t := a[1..] + [sep] + b;
      assert a + [sep] + b == [a[0]] + t;
      assert a == [a[0]] + a[1..];
      SplitAppend(a[1..], b, sep);
      SplitCons(a[0], t, sep);
      SplitCons(a[0], a[1..], sep);
      if a[0] == sep {
        assert [""] + (Split(a[1..], sep) + Split(b, sep)) == ([""] + Split(a[1..], sep)) + Split(b, sep);
      } else {
        GlueFirstAppend(a[0], Split(a[1..], sep), Split(b, sep));
      }
    }
  }

  /** The parts of a text with exactly two separators. */
  lemma SplitThree(a: string, b: string, c: string)
    requires '-' !in a && '-' !in b && '-' !in c
    ensures Split(a + "-" + b + "-" + c, '-') == [a, b, c]
  {
    SplitWithout(c, '-');
    SplitPrefix(b, c, '-');
    SplitPrefix(a, b + "-" + c, '-');
    assert a + "-" + b + "-" + c == a + ['-'] + (b + ['-'] + c);
  }

  /** The outcome for a text of exactly three parts, from the parts themselves. */
  lemma ValidateThreeParts(year: string, month: string, day: string, endDate: string)
    requires '-' !in year && '-' !in month && '-' !in day
    ensures ValidateDate(year + "-" + month + "-" + day, endDate) ==
      Returns(&& |year| == 4 && PyInt(month).Some? && PyInt(day).Some?
              && |month| == 2 && 0 <= PyInt(month).value <= 12 && 0 <= PyInt(day).value <= 31)
  {
    SplitThree(year, month, day);
  }

  /** A one-digit month is refused, even a valid one. */
  lemma ValidateOneDigitMonth(year: string, month: nat, day: nat, endDate: string)
    requires |year| == 4 && '-' !in year
    requires month < 10 && day < 100
    ensures ValidateDate(year + "-" + [Digit(month)] + "-" + TwoDigits(day), endDate) == Returns(false)
  {
    ValidateThreeParts(year, [Digit(month)], TwoDigits(day), endDate);
    TwoDigitsParse(day);
    assert [Digit(month)][..0] == [];
    PyIntNumeral([Digit(month)]);
  }

  /** A one-digit month written after a space has two characters and parses, so it passes. */
  lemma ValidateSpacedMonth(year: string, month: nat, day: nat, endDate: string)
    requires |year| == 4 && '-' !in year
    requires 1 <= month < 10 && day <= 31
    ensures ValidateDate(year + "-" + [' ', Digit(month)] + "-" + TwoDigits(day), endDate) == Returns(true)
  {
    var text := [' ', Digit(month)];
    ValidateThreeParts(year, text, TwoDigits(day), endDate);
    TwoDigitsParse(day);
    assert Strip(text) == [Digit(month)] by {
      assert text[1..] == [Digit(month)];
    }
    assert [Digit(month)][..0] == [];
    PyIntNumeral([Digit(month)]);
    assert PyInt(text) == Some(month);
  }

  /** The day's length is not checked: any number of leading zeros passes. */
  lemma ValidatePaddedDay(year: string, month: nat, zeros: string, day: nat, endDate: string)
    requires |year| == 4 && '-' !in year
    requires month <= 12 && day <= 31
    requires forall i :: 0 <= i < |zeros| ==> zeros[i] == '0'
    ensures ValidateDate(year + "-" + TwoDigits(month) + "-" + (zeros + TwoDigits(day)), endDate) == Returns(true)
  {
    var dayText := zeros + TwoDigits(day);
    assert '-' !in dayText by {
      assert forall i :: 0 <= i < |dayText| ==> dayText[i] != '-';
    }
    ValidateThreeParts(year, TwoDigits(month), dayText, endDate);
    TwoDigitsParse(month);
    TwoDigitsParse(day);
    LeadingZeros(zeros, TwoDigits(day));
    assert IsNumeral(TwoDigits(day));
    assert IsNumeral(dayText);
    PyIntNumeral(TwoDigits(day));
    PyIntNumeral(dayText);
  }

  /** Zeros in front of a numeral do not change its value. */
  lemma {:induction false} LeadingZeros(zeros: string, s: string)
    requires forall i :: 0 <= i < |zeros| ==> zeros[i] == '0'
    requires forall i :: 0 <= i < |s| ==> IsDigit(s[i]) || s[i] == '_'
    ensures forall i :: 0 <= i < |zeros + s| ==> IsDigit((zeros + s)[i]) || (zeros + s)[i] == '_'
    ensures NumeralValue(zeros + s) == NumeralValue(s)
    decreases |s|
  {
    if s == [] {
      assert zeros + s == zeros;
      ZerosValue(zeros);
    } else {
      var init := s[..|s| - 1];
      assert (zeros + s)[..|zeros + s| - 1] == zeros + init;
      LeadingZeros(zeros, init);
    }
  }

  /** A text of zeros is worth nothing. */
  lemma {:induction false} ZerosValue(zeros: string)
    requires forall i :: 0 <= i < |zeros| ==> zeros[i] == '0'
    ensures NumeralValue(zeros) == 0
    decreases |zeros|
  {
    if zeros != [] {
      ZerosValue(zeros[..|zeros| - 1]);
    }
  }

  /** A date without a day raises instead of returning `False`. */
  lemma ValidateMissingDay(year: string, month: nat, endDate: string)
    requires |year| == 4 && '-' !in year
    requires month < 100
    ensures ValidateDate(year + "-" + TwoDigits(month), endDate) == RaisesIndexError
  {
    SplitPrefix(year, TwoDigits(month), '-');
    SplitWithout(TwoDigits(month), '-');
    TwoDigitsParse(month);
  }
}
