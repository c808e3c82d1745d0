/** The timestamped store's naming scheme: `make_timestamp`,
    `make_file_path_with_timestamp` and `find_latest_file`
    (utilities.py:46-74).

    A snapshot file is named `<prefix>_YYYY-MM-DD_HHMMSS.<extension>`.
    Lookup keeps the names that match that pattern exactly, parses the
    stamp as a calendar date-time (skipping stamps that are not one), and
    returns the name with the strictly latest time, the first one listed
    winning a tie.  The wall clock becomes a parameter, the directory
    listing a sequence of names, and the directory itself is left out. */
module Timestamps {
  import opened PyValues
  import opened StringOrder

  /** A `datetime` to the second. */
  datatype DateTime = DateTime(year: int, month: int, day: int, hour: int, minute: int, second: int)

  predicate IsLeapYear(y: int)
  {
    y % 4 == 0 && (y % 100 != 0 || y % 400 == 0)
  }

  function DaysInMonth(y: int, m: int): int
    requires 1 <= m <= 12
  {
    if m == 2 then (if IsLeapYear(y) then 29 else 28)
    else if m == 4 || m == 6 || m == 9 || m == 11 then 30
    else 31
  }

  /** The values `datetime` accepts (proleptic Gregorian, years 1 to 9999). */
  predicate Valid(t: DateTime)
  {
    && 1 <= t.year <= 9999
    && 1 <= t.month <= 12
    && 1 <= t.day <= DaysInMonth(t.year, t.month)
    && 0 <= t.hour <= 23
    && 0 <= t.minute <= 59
    && 0 <= t.second <= 59
  }

  /** `a < b` between datetimes: chronological order. */
  predicate Before(a: DateTime, b: DateTime)
  {
    a.year < b.year || (a.year == b.year &&
    (a.month < b.month || (a.month == b.month &&
    (a.day < b.day || (a.day == b.day &&
    (a.hour < b.hour || (a.hour == b.hour &&
    (a.minute < b.minute || (a.minute == b.minute && a.second < b.second)))))))))
  }

  // ---------------------------------------------------------------------
  // Digits

  function Pow10(w: nat): (p: nat)
    ensures p >= 1
  {
    if w == 0 then 1 else 10 * Pow10(w - 1)
  }

  predicate IsDigit(c: char)
  {
    '0' <= c <= '9'
  }

  function DigitChar(d: nat): char
    requires d < 10
  {
    ('0' as int + d) as char
  }

  /** The last `w` decimal digits of `n`, zero-padded: strftime's `%04d`, `%02d`. */
  function Digits(n: nat, w: nat): (s: string)
    ensures |s| == w
  {
    if w == 0 then "" else Digits(n / 10, w - 1) + [DigitChar(n % 10)]
  }

  /** The number a string of decimal digits spells, as `int()` reads it. */
  function DigitsValue(s: string): int
  {
    if s == [] then 0 else 10 * DigitsValue(s[..|s| - 1]) + (s[|s| - 1] as int - '0' as int)
  }

  lemma {:induction false} DigitsRoundTrip(n: nat, w: nat)
    requires n < Pow10(w)
    ensures DigitsValue(Digits(n, w)) == n
    ensures forall i :: 0 <= i < w ==> IsDigit(Digits(n, w)[i])
  {
    if w > 0 {
      DigitsRoundTrip(n / 10, w - 1);
      var s := Digits(n, w);
      assert s[..w - 1] == Digits(n / 10, w - 1);
    }
  }

  // ---------------------------------------------------------------------
  // Formatting (lines 46-51)

  /** `t.strftime("%Y-%m-%d_%H%M%S")`. */
  function FormatStamp(t: DateTime): (s: string)
    requires Valid(t)
    ensures |s| == 17
  {
    Digits(t.year, 4) + ("-" + (Digits(t.month, 2) + ("-" + (Digits(t.day, 2) +
      ("_" + (Digits(t.hour, 2) + (Digits(t.minute, 2) + Digits(t.second, 2))))))))
  }

  /** The file name `make_file_path_with_timestamp(prefix, extension)`
      joins to the script's directory when the clock reads `t`. */
  function MakeFileName(prefix: string, extension: string, t: DateTime): (name: string)
    requires Valid(t)
    ensures |name| == |prefix| + 19 + |extension|
    ensures name[..|prefix|] == prefix && name[|prefix|] == '_' && name[|prefix| + 18] == '.'
    ensures name[|prefix| + 1..|prefix| + 18] == FormatStamp(t) && name[|prefix| + 19..] == extension
  {
    prefix + "_" + FormatStamp(t) + "." + extension
  }

  // ---------------------------------------------------------------------
  // Matching and parsing (lines 56-72)

  /** What `\d{4}-\d{2}-\d{2}_\d{6}` matches. */
  predicate StampShape(s: string)
  {
    && |s| == 17
    && s[4] == '-' && s[7] == '-' && s[10] == '_'
    && forall i :: 0 <= i < 17 && i != 4 && i != 7 && i != 10 ==> IsDigit(s[i])
  }

  /** `re.compile(rf"{re.escape(prefix)}_(\d{4}-\d{2}-\d{2}_\d{6})\.{extension}").fullmatch(name)`
      and its group 1, for an extension without regex metacharacters. */
  function StampGroup(name: string, prefix: string, extension: string): (g: Option<string>)
    ensures g.Some? ==> StampShape(g.value) && |name| == |prefix| + 19 + |extension|
    ensures g.Some? ==> name[..|prefix|] == prefix && name[|prefix| + 19..] == extension
  {
    var n := |prefix|;
    if |name| == n + 19 + |extension| && name[..n] == prefix && name[n] == '_'
       && StampShape(name[n + 1..n + 18]) && name[n + 18] == '.' && name[n + 19..] == extension
    then Some(name[n + 1..n + 18])
    else None
  }

  /** `datetime.strptime(stamp, "%Y-%m-%d_%H%M%S")` on a matched stamp:
      None where strptime raises ValueError. */
  function ParseStamp(s: string): (t: Option<DateTime>)
    requires StampShape(s)
    ensures t.Some? ==> Valid(t.value)
  {
    var t := DateTime(DigitsValue(s[0..4]), DigitsValue(s[5..7]), DigitsValue(s[8..10]),
                      DigitsValue(s[11..13]), DigitsValue(s[13..15]), DigitsValue(s[15..17]));
    if Valid(t) then Some(t) else None
  }

  /** The time a listed name contributes to the search, if any. */
  function Candidate(name: string, prefix: string, extension: string): Option<DateTime>
  {
    match StampGroup(name, prefix, extension)
    case None => None
    case Some(g) => if StampShape(g) then ParseStamp(g) else None
  }

  /** The pattern matches a name exactly when the name is the prefix, an
      underscore, a stamp-shaped group, a dot and the extension. */
  lemma StampGroupExact(name: string, prefix: string, extension: string, g: string)
    ensures StampGroup(name, prefix, extension) == Some(g) <==>
            (name == prefix + "_" + g + "." + extension && StampShape(g))
  {
    var n := |prefix|;
    if name == prefix + "_" + g + "." + extension && StampShape(g) {
      assert name[..n] == prefix;
      assert name[n + 1..n + 18] == g;
      assert name[n + 19..] == extension;
    }
    if StampGroup(name, prefix, extension) == Some(g) {
      assert name == name[..n] + [name[n]] + name[n + 1..n + 18] + [name[n + 18]] + name[n + 19..];
    }
  }

  /** Where each field and separator sits in a formatted stamp. */
  lemma StampLayout(t: DateTime)
    requires Valid(t)
    ensures var s := FormatStamp(t);
            && s[0..4] == Digits(t.year, 4) && s[4] == '-'
            && s[5..7] == Digits(t.month, 2) && s[7] == '-'
            && s[8..10] == Digits(t.day, 2) && s[10] == '_'
            && s[11..13] == Digits(t.hour, 2)
            && s[13..15] == Digits(t.minute, 2)
            && s[15..17] == Digits(t.second, 2)
  {
  }

  /** Formatting then parsing a stamp gives back the time. */
  lemma StampRoundTrip(t: DateTime)
    requires Valid(t)
    ensures StampShape(FormatStamp(t)) && ParseStamp(FormatStamp(t)) == Some(t)
  {
    var s := FormatStamp(t);
    StampLayout(t);
    DigitsRoundTrip(t.year, 4);
    DigitsRoundTrip(t.month, 2);
    DigitsRoundTrip(t.day, 2);
    DigitsRoundTrip(t.hour, 2);
    DigitsRoundTrip(t.minute, 2);
    DigitsRoundTrip(t.second, 2);
    forall i | 0 <= i < 17 && i != 4 && i != 7 && i != 10
      ensures IsDigit(s[i])
    {
      if i < 4 { assert s[i] == s[0..4][i]; }
      else if i < 7 { assert s[i] == s[5..7][i - 5]; }
      else if i < 10 { assert s[i] == s[8..10][i - 8]; }
      else if i < 13 { assert s[i] == s[11..13][i - 11]; }
      else if i < 15 { assert s[i] == s[13..15][i - 13]; }
      else { assert s[i] == s[15..17][i - 15]; }
    }
  }

  /** A string of decimal digits is the zero-padded spelling, at its own
      width, of the number it spells. */
  lemma {:induction false} DigitsOfValue(s: string)
    requires forall i :: 0 <= i < |s| ==> IsDigit(s[i])
    ensures 0 <= DigitsValue(s) < Pow10(|s|)
    ensures Digits(DigitsValue(s), |s|) == s
    decreases |s|
  {
    if s != [] {
      var n := |s| - 1;
      DigitsOfValue(s[..n]);
      var v := DigitsValue(s);
      var d := s[n] as int - '0' as int;
      assert v / 10 == DigitsValue(s[..n]) && v % 10 == d;
      assert DigitChar(d) == s[n];
      assert s == s[..n] + [s[n]];
    }
  }

  /** Parsing then formatting a stamp that strptime accepts gives back the
      stamp: a stamp of that shape spells exactly one time. */
  lemma ParseStampRoundTrip(s: string)
    requires StampShape(s) && ParseStamp(s).Some?
    ensures FormatStamp(ParseStamp(s).value) == s
  {
    var t := ParseStamp(s).value;
    StampLayout(t);
    forall a, b | (a, b) in {(0, 4), (5, 7), (8, 10), (11, 13), (13, 15), (15, 17)}
      ensures Digits(DigitsValue(s[a..b]), b - a) == s[a..b]
    {
      forall i | 0 <= i < b - a
        ensures IsDigit(s[a..b][i])
      {
        assert s[a..b][i] == s[a + i];
      }
      DigitsOfValue(s[a..b]);
    }
    var f := FormatStamp(t);
    assert f[0..4] == s[0..4] && f[5..7] == s[5..7] && f[8..10] == s[8..10];
    assert f[11..13] == s[11..13] && f[13..15] == s[13..15] && f[15..17] == s[15..17];
    forall i | 0 <= i < 17
      ensures f[i] == s[i]
    {
      if i < 4 { assert f[i] == f[0..4][i] && s[i] == s[0..4][i]; }
      else if i == 4 || i == 7 || i == 10 { }
      else if i < 7 { assert f[i] == f[5..7][i - 5] && s[i] == s[5..7][i - 5]; }
      else if i < 10 { assert f[i] == f[8..10][i - 8] && s[i] == s[8..10][i - 8]; }
      else if i < 13 { assert f[i] == f[11..13][i - 11] && s[i] == s[11..13][i - 11]; }
      else if i < 15 { assert f[i] == f[13..15][i - 13] && s[i] == s[13..15][i - 13]; }
      else { assert f[i] == f[15..17][i - 15] && s[i] == s[15..17][i - 15]; }
    }
  }

  /** A name written at time `t` is found by a search for the same prefix
      and extension, with time `t`. */
  lemma FileNameRoundTrip(prefix: string, extension: string, t: DateTime)
    requires Valid(t)
    ensures StampGroup(MakeFileName(prefix, extension, t), prefix, extension) == Some(FormatStamp(t))
    ensures Candidate(MakeFileName(prefix, extension, t), prefix, extension) == Some(t)
  {
    StampRoundTrip(t);
    StampGroupExact(MakeFileName(prefix, extension, t), prefix, extension, FormatStamp(t));
  }

  /** Two writes get the same name only within the same second. */
  lemma FileNameInjective(prefix: string, extension: string, t1: DateTime, t2: DateTime)
    requires Valid(t1) && Valid(t2)
    ensures MakeFileName(prefix, extension, t1) == MakeFileName(prefix, extension, t2) <==> t1 == t2
  {
    FileNameRoundTrip(prefix, extension, t1);
    FileNameRoundTrip(prefix, extension, t2);
  }

  // ---------------------------------------------------------------------
  // Stamp order is chronological order

  predicate StrLt(a: string, b: string)
  {
    StrLe(a, b) && a != b
  }

  lemma {:induction false} ConcatOrder(a1: string, a2: string, b1: string, b2: string)
    requires |a1| == |b1|
    ensures StrLe(a1 + a2, b1 + b2) <==> StrLt(a1, b1) || (a1 == b1 && StrLe(a2, b2))
    ensures a1 + a2 == b1 + b2 <==> a1 == b1 && a2 == b2
    decreases |a1|
  {
    if |a1| == 0 {
      assert a1 + a2 == a2 && b1 + b2 == b2;
    } else {
      ConcatOrder(a1[1..], a2, b1[1..], b2);
      assert (a1 + a2)[1..] == a1[1..] + a2;
      assert (b1 + b2)[1..] == b1[1..] + b2;
      assert a1 == [a1[0]] + a1[1..] && b1 == [b1[0]] + b1[1..];
      if a1 + a2 == b1 + b2 {
        assert (a1 + a2)[..|a1|] == a1 && (b1 + b2)[..|b1|] == b1;
      }
    }
  }

  lemma {:induction false} DigitsOrder(n: nat, m: nat, w: nat)
    requires n < Pow10(w) && m < Pow10(w)
    ensures StrLe(Digits(n, w), Digits(m, w)) <==> n <= m
    ensures Digits(n, w) == Digits(m, w) <==> n == m
  {
    if w > 0 {
      DigitsOrder(n / 10, m / 10, w - 1);
      ConcatOrder(Digits(n / 10, w - 1), [DigitChar(n % 10)], Digits(m / 10, w - 1), [DigitChar(m % 10)]);
    }
  }

  /** For valid times, string order of the stamps is time order, so
      "lexicographically greatest" and "latest" pick the same file. */
  lemma StampOrderIsChronological(a: DateTime, b: DateTime)
    requires Valid(a) && Valid(b)
    ensures StrLt(FormatStamp(a), FormatStamp(b)) <==> Before(a, b)
  {
    DigitsOrder(a.year, b.year, 4);
    DigitsOrder(a.month, b.month, 2);
    DigitsOrder(a.day, b.day, 2);
    DigitsOrder(a.hour, b.hour, 2);
    DigitsOrder(a.minute, b.minute, 2);
    DigitsOrder(a.second, b.second, 2);
    var mi1, mi2 := Digits(a.minute, 2) + Digits(a.second, 2), Digits(b.minute, 2) + Digits(b.second, 2);
    ConcatOrder(Digits(a.minute, 2), Digits(a.second, 2), Digits(b.minute, 2), Digits(b.second, 2));
    var h1, h2 := Digits(a.hour, 2) + mi1, Digits(b.hour, 2) + mi2;
    ConcatOrder(Digits(a.hour, 2), mi1, Digits(b.hour, 2), mi2);
    var u1, u2 := "_" + h1, "_" + h2;
    ConcatOrder("_", h1, "_", h2);
    var d1, d2 := Digits(a.day, 2) + u1, Digits(b.day, 2) + u2;
    ConcatOrder(Digits(a.day, 2), u1, Digits(b.day, 2), u2);
    var e1, e2 := "-" + d1, "-" + d2;
    ConcatOrder("-", d1, "-", d2);
    var mo1, mo2 := Digits(a.month, 2) + e1, Digits(b.month, 2) + e2;
    ConcatOrder(Digits(a.month, 2), e1, Digits(b.month, 2), e2);
    var f1, f2 := "-" + mo1, "-" + mo2;
    ConcatOrder("-", mo1, "-", mo2);
    ConcatOrder(Digits(a.year, 4), f1, Digits(b.year, 4), f2);
    StrLeReflexive("-");
    StrLeReflexive("_");
  }

  // ---------------------------------------------------------------------
  // The search (lines 59-74)

  /** The name `find_latest_file` settles on after scanning `names` in
      order: a candidate replaces the current one only when its time is
      strictly later.  None stands for the scan finding nothing, after
      which joining the directory with None raises TypeError. */
  function Latest(names: seq<string>, prefix: string, extension: string): (r: Option<string>)
    ensures r.Some? ==> Candidate(r.value, prefix, extension).Some?
  {
    if names == [] then None
    else
      var sofar := Latest(names[..|names| - 1], prefix, extension);
      var name := names[|names| - 1];
      match Candidate(name, prefix, extension)
      case None => sofar
      case Some(t) =>
        if sofar.None? || Before(Candidate(sofar.value, prefix, extension).value, t) then Some(name) else sofar
  }

  /** The time of a candidate name. */
  function TimeOf(name: string, prefix: string, extension: string): DateTime
    requires Candidate(name, prefix, extension).Some?
  {
    Candidate(name, prefix, extension).value
  }

  /** Times that are not before `y` and `y` before `z`: `x <= y < z`. */
  lemma BeforeAfterNotBefore(x: DateTime, y: DateTime, z: DateTime)
    requires !Before(y, x) && Before(y, z)
    ensures Before(x, z) && !Before(z, x)
  {
  }

  /** `names[i]` is a candidate whose time no candidate of `names`
      exceeds, and every candidate listed before it is strictly earlier. */
  predicate FirstLatestAt(names: seq<string>, i: int, prefix: string, extension: string)
  {
    && 0 <= i < |names|
    && Candidate(names[i], prefix, extension).Some?
    && (forall j :: 0 <= j < |names| && Candidate(names[j], prefix, extension).Some? ==>
          !Before(TimeOf(names[i], prefix, extension), TimeOf(names[j], prefix, extension)))
    && (forall j :: 0 <= j < i && Candidate(names[j], prefix, extension).Some? ==>
          Before(TimeOf(names[j], prefix, extension), TimeOf(names[i], prefix, extension)))
  }

  /** The search finds nothing exactly when no listed name is a candidate. */
  lemma {:induction false} LatestNoneIffNoCandidate(names: seq<string>, prefix: string, extension: string)
    ensures Latest(names, prefix, extension).None? <==>
            forall i :: 0 <= i < |names| ==> Candidate(names[i], prefix, extension).None?
    decreases |names|
  {
    if names != [] {
      var n := |names| - 1;
      LatestNoneIffNoCandidate(names[..n], prefix, extension);
      assert forall j :: 0 <= j < n ==> names[..n][j] == names[j];
    }
  }

  /** A new candidate strictly later than the best so far becomes the
      first latest. */
  lemma LaterCandidateTakesOver(names: seq<string>, i: int, prefix: string, extension: string)
    requires |names| > 0 && 0 <= i < |names| - 1
    requires FirstLatestAt(names[..|names| - 1], i, prefix, extension)
    requires Candidate(names[|names| - 1], prefix, extension).Some?
    requires Before(TimeOf(names[i], prefix, extension), TimeOf(names[|names| - 1], prefix, extension))
    ensures FirstLatestAt(names, |names| - 1, prefix, extension)
  {
    var n := |names| - 1;
    var t := TimeOf(names[n], prefix, extension);
    forall j | 0 <= j < n && Candidate(names[j], prefix, extension).Some?
      ensures Before(TimeOf(names[j], prefix, extension), t) && !Before(t, TimeOf(names[j], prefix, extension))
    {
      assert names[..n][j] == names[j];
      BeforeAfterNotBefore(TimeOf(names[j], prefix, extension), TimeOf(names[i], prefix, extension), t);
    }
  }

  /** A new name that is no candidate, or no later than the best so far,
      leaves the first latest where it was. */
  lemma FirstLatestKept(names: seq<string>, i: int, prefix: string, extension: string)
    requires |names| > 0 && 0 <= i < |names| - 1
    requires FirstLatestAt(names[..|names| - 1], i, prefix, extension)
    requires Candidate(names[|names| - 1], prefix, extension).Some? ==>
             !Before(TimeOf(names[i], prefix, extension), TimeOf(names[|names| - 1], prefix, extension))
    ensures FirstLatestAt(names, i, prefix, extension)
  {
    var n := |names| - 1;
    assert forall j :: 0 <= j < n ==> names[..n][j] == names[j];
  }

  /** The first candidate of a list that had none is the first latest. */
  lemma FirstCandidateIsLatest(names: seq<string>, prefix: string, extension: string)
    requires |names| > 0
    requires Latest(names[..|names| - 1], prefix, extension).None?
    requires Candidate(names[|names| - 1], prefix, extension).Some?
    ensures FirstLatestAt(names, |names| - 1, prefix, extension)
  {
    var n := |names| - 1;
    LatestNoneIffNoCandidate(names[..n], prefix, extension);
    assert forall j :: 0 <= j < n ==> names[..n][j] == names[j];
  }

  /** Otherwise it returns the first-listed name with the latest time. */
  lemma {:induction false} LatestIsFirstLatest(names: seq<string>, prefix: string, extension: string)
    ensures Latest(names, prefix, extension).Some? ==>
            exists i :: FirstLatestAt(names, i, prefix, extension) && names[i] == Latest(names, prefix, extension).value
    decreases |names|
  {
    if names != [] {
      var n := |names| - 1;
      var front := names[..n];
      LatestIsFirstLatest(front, prefix, extension);
      var sofar := Latest(front, prefix, extension);
      if sofar.None? {
        if Candidate(names[n], prefix, extension).Some? {
          FirstCandidateIsLatest(names, prefix, extension);
        }
      } else {
        var i :| FirstLatestAt(front, i, prefix, extension) && front[i] == sofar.value;
        if Candidate(names[n], prefix, extension).Some? &&
           Before(TimeOf(names[i], prefix, extension), TimeOf(names[n], prefix, extension)) {
          LaterCandidateTakesOver(names, i, prefix, extension);
        } else {
          FirstLatestKept(names, i, prefix, extension);
        }
      }
    }
  }

  /** Writing a file later than every candidate listed makes it the one
      found next. */
  lemma NewestWriteIsFound(names: seq<string>, prefix: string, extension: string, t: DateTime)
    requires Valid(t)
    requires forall i :: 0 <= i < |names| && Candidate(names[i], prefix, extension).Some? ==>
               Before(TimeOf(names[i], prefix, extension), t)
    ensures Latest(names + [MakeFileName(prefix, extension, t)], prefix, extension)
         == Some(MakeFileName(prefix, extension, t))
  {
    var all := names + [MakeFileName(prefix, extension, t)];
    assert all[..|all| - 1] == names;
    FileNameRoundTrip(prefix, extension, t);
    LatestIsFirstLatest(names, prefix, extension);
    var sofar := Latest(names, prefix, extension);
    if sofar.Some? {
      var i :| FirstLatestAt(names, i, prefix, extension) && names[i] == sofar.value;
    }
  }

  /** `find_latest_file(prefix, extension)` over a directory listing. */
  method FindLatestFile(names: seq<string>, prefix: string, extension: string) returns (latestFile: Option<string>)
    ensures latestFile == Latest(names, prefix, extension)
  {
    latestFile := None;
    var latestTime: Option<DateTime> := None;
    for k := 0 to |names|
      invariant latestFile == Latest(names[..k], prefix, extension)
      invariant latestTime.Some? <==> latestFile.Some?
      invariant latestFile.Some? ==> latestTime.value == TimeOf(latestFile.value, prefix, extension)
    {
      assert names[..k + 1][..k] == names[..k];
      var filename := names[k];
      var found := StampGroup(filename, prefix, extension);
      if found.Some? {
        var stamp := found.value;
        var fileTime := ParseStamp(stamp);
        if fileTime.Some? {
          if latestTime.None? || Before(latestTime.value, fileTime.value) {
            latestTime := fileTime;
            latestFile := Some(filename);
          }
        }
      }
    }
    assert names[..|names|] == names;
  }
}
