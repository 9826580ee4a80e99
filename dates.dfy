/** The two `pd.to_datetime` formats of the processing script:
    `%Y-%m-%dT%H:%M:%S` for PostingDate and `%B-%d,-%Y` for Move-In-Date,
    parsed with `utc=True` (naive times are taken as UTC, nothing shifts). */
module Dates {
  import opened Wrappers
  import opened Strings

  datatype DateTime = DateTime(year: int, month: int, day: int, hour: int, minute: int, second: int)

  predicate IsLeap(y: int) {
    y % 4 == 0 && (y % 100 != 0 || y % 400 == 0)
  }

  function DaysInMonth(y: int, m: int): int
    requires 1 <= m <= 12
  {
    if m == 2 then (if IsLeap(y) then 29 else 28)
    else if m == 4 || m == 6 || m == 9 || m == 11 then 30
    else 31
  }

  /** What Python's `datetime` accepts. */
  predicate ValidDateTime(t: DateTime) {
    && 1 <= t.year <= 9999
    && 1 <= t.month <= 12
    && 1 <= t.day <= DaysInMonth(t.year, t.month)
    && 0 <= t.hour < 24 && 0 <= t.minute < 60 && 0 <= t.second < 60
  }

  /** `a` is not later than `b`, to the second. */
  predicate NotAfter(a: DateTime, b: DateTime) {
    if a.year != b.year then a.year < b.year
    else if a.month != b.month then a.month < b.month
    else if a.day != b.day then a.day < b.day
    else if a.hour != b.hour then a.hour < b.hour
    else if a.minute != b.minute then a.minute < b.minute
    else a.second <= b.second
  }

  /** The range of pandas' nanosecond timestamps, from
      1677-09-21 00:12:43.145224193 to 2262-04-11 23:47:16.854775807, to the
      second; a parsed date outside it raises `OutOfBoundsDatetime`. */
  predicate InTimestampRange(t: DateTime) {
    NotAfter(DateTime(1677, 9, 21, 0, 12, 44), t) && NotAfter(t, DateTime(2262, 4, 11, 23, 47, 16))
  }

  predicate Representable(t: DateTime) {
    ValidDateTime(t) && InTimestampRange(t)
  }

  // ---------------------------------------------------------------- %B-%d,-%Y

  /** `%B` in the C locale, as strftime writes it. */
  const MonthNames: seq<string> := ["January", "February", "March", "April", "May", "June",
                                    "July", "August", "September", "October", "November", "December"]

  /** The same names lower-cased: strptime matches `%B` ignoring case. */
  const LowerMonthNames: seq<string> := ["january", "february", "march", "april", "may", "june",
                                         "july", "august", "september", "october", "november", "december"]

  lemma MonthNamesLower(i: nat)
    requires i < 12
    ensures Lower(MonthNames[i]) == LowerMonthNames[i]
    ensures '-' !in MonthNames[i]
  {
  }

  /** The month number `%B` reads from `tok`, searching from the `i`-th name. */
  function MonthFrom(tok: string, i: nat): (r: Option<int>)
    requires i <= 12
    ensures r.Some? ==> i < r.value <= 12 && Lower(tok) == LowerMonthNames[r.value - 1]
    ensures r.None? ==> forall k :: i <= k < 12 ==> Lower(tok) != LowerMonthNames[k]
    decreases 12 - i
  {
    if i == 12 then None
    else if Lower(tok) == LowerMonthNames[i] then Some(i + 1)
    else MonthFrom(tok, i + 1)
  }

  function MonthOf(tok: string): Option<int> {
    MonthFrom(tok, 0)
  }

  /** `%d` of strptime, `3[01]|[12]\d|0[1-9]|[1-9]| [1-9]`, as a whole token. */
  function DayOf(tok: string): (r: Option<int>)
    ensures r.Some? ==> 1 <= r.value <= 31
    ensures r.Some? <==> || (1 <= |tok| <= 2 && AllDigits(tok) && 1 <= DigitsValue(tok) <= 31)
                         || (|tok| == 2 && tok[0] == ' ' && IsDigit(tok[1]) && tok[1] != '0')
    ensures r.Some? && AllDigits(tok) ==> r.value == DigitsValue(tok)
    ensures r.Some? && !AllDigits(tok) ==> r.value == DigitValue(tok[1])
  {
    if |tok| == 1 && '1' <= tok[0] <= '9' then Some(DigitValue(tok[0]))
    else if |tok| == 2 && tok[0] == ' ' && '1' <= tok[1] <= '9' then Some(DigitValue(tok[1]))
    else if |tok| == 2 && AllDigits(tok) && 1 <= DigitsValue(tok) <= 31 then Some(DigitsValue(tok))
    else None
  }

  /** `%Y` of strptime, `\d\d\d\d`. */
  function YearOf(tok: string): (r: Option<int>)
    ensures r.Some? ==> 0 <= r.value <= 9999
    ensures r.Some? <==> |tok| == 4 && AllDigits(tok)
    ensures r.Some? ==> r.value == DigitsValue(tok)
  {
    if |tok| == 4 && AllDigits(tok) then
      assert DigitsValue(tok) < Pow10(4) by { DigitsBound(tok); }
      Some(DigitsValue(tok))
    else None
  }

  /** `%d` reads back the day `str(d)` and `'%02d' % d` write, and `%Y` the
      year `'%04d' % y` writes. */
  lemma DayYearRoundTrip(d: nat, y: nat)
    requires 1 <= d <= 31 && y <= 9999
    ensures DayOf(NatToString(d)) == Some(d)
    ensures DayOf(PadDigits(d, 2)) == Some(d)
    ensures YearOf(PadDigits(y, 4)) == Some(y)
  {
    var t := NatToString(d);
    if d >= 10 {
      assert NatToString(d / 10) == [DigitChar(d / 10)];
      assert |t| == 2;
    }
  }

  lemma {:induction false} DigitsBound(s: string)
    requires AllDigits(s)
    ensures DigitsValue(s) < Pow10(|s|)
    decreases |s|
  {
    if s != [] {
      DigitsBound(s[..|s| - 1]);
    }
  }

  /** Zero-padding a digit text's value to the text's own width gives the
      text back: a field that `%Y`, `%m` or `%H` accepts is exactly what
      strftime writes for the number read. */
  lemma {:induction false} PadDigitsOfValue(s: string)
    requires AllDigits(s)
    ensures DigitsValue(s) < Pow10(|s|)
    ensures PadDigits(DigitsValue(s), |s|) == s
    decreases |s|
  {
    DigitsBound(s);
    if s != [] {
      var init, last := s[..|s| - 1], s[|s| - 1];
      PadDigitsOfValue(init);
      var n := DigitsValue(s);
      assert n == DigitsValue(init) * 10 + DigitValue(last);
      assert n / 10 == DigitsValue(init) && n % 10 == DigitValue(last);
      assert DigitChar(n % 10) == last;
      assert s == init + [last];
    }
  }

  /** `pd.to_datetime(x, format='%B-%d,-%Y', utc=True)` on one text; None is
      the ValueError the whole conversion raises. The month name runs up to the
      first '-', the day up to the next ',', and ",-" and four digits must end
      the text. */
  function ParseMoveInDate(s: string): (r: Option<DateTime>)
    ensures r.Some? ==> Representable(r.value)
    ensures r.Some? ==> r.value.hour == 0 && r.value.minute == 0 && r.value.second == 0
    ensures r.Some? ==> exists m, d, y :: MoveInShape(s, m, d, y)
                          && r == MidnightOf(MonthOf(m), DayOf(d), YearOf(y))
  {
    var m := FirstPiece(s, '-');
    if |m| == |s| then None
    else
      var rest := s[|m| + 1..];
      var d := FirstPiece(rest, ',');
      if |d| == |rest| then None
      else
        var tail := rest[|d| + 1..];
        if tail == [] || tail[0] != '-' then None
        else
          MoveInSplit(s, m, rest, d, tail);
          MidnightOf(MonthOf(m), DayOf(d), YearOf(tail[1..]))
  }

  /** `s` is a month token, '-', a day token, ",-" and a year token, the
      month token holding no '-' and the day token no ','. */
  predicate MoveInShape(s: string, m: string, d: string, y: string) {
    '-' !in m && ',' !in d && s == m + "-" + d + ",-" + y
  }

  /** The pieces `ParseMoveInDate` cuts out put `s` back together. */
  lemma MoveInSplit(s: string, m: string, rest: string, d: string, tail: string)
    requires m <= s && |m| < |s| && s[|m|] == '-' && '-' !in m && rest == s[|m| + 1..]
    requires d <= rest && |d| < |rest| && rest[|d|] == ',' && ',' !in d && tail == rest[|d| + 1..]
    requires tail != [] && tail[0] == '-'
    ensures MoveInShape(s, m, d, tail[1..])
  {
    var y := tail[1..];
    PieceGlue(s, m, '-');
    PieceGlue(rest, d, ',');
    assert tail == "-" + y;
    MoveInGlue(m, d, y);
  }

  lemma MoveInGlue(m: string, d: string, y: string)
    ensures m + "-" + (d + "," + ("-" + y)) == m + "-" + d + ",-" + y
  {
    assert ",-" == "," + "-";
  }

  /** A prefix followed by a separator glues back with what follows it. */
  lemma PieceGlue(s: string, a: string, c: char)
    requires a <= s && |a| < |s| && s[|a|] == c
    ensures s == a + [c] + s[|a| + 1..]
  {
  }

  /** The midnight the three fields name, when all were read and it is
      representable. */
  function MidnightOf(month: Option<int>, day: Option<int>, year: Option<int>): (r: Option<DateTime>)
    ensures r.Some? ==> Representable(r.value)
    ensures r.Some? ==> r.value.hour == 0 && r.value.minute == 0 && r.value.second == 0
  {
    match (month, day, year)
    case (Some(mo), Some(dy), Some(yr)) =>
      var t := DateTime(yr, mo, dy, 0, 0, 0);
      if Representable(t) then Some(t) else None
    case _ => None
  }

  lemma LowerMonthNamesDistinct(k: nat, j: nat)
    requires k < j < 12
    ensures LowerMonthNames[k] != LowerMonthNames[j]
  {
    var a, b := LowerMonthNames[k], LowerMonthNames[j];
    assert |a| != |b| || a[0] != b[0] || a[2] != b[2];
  }

  /** A token that equals the `i`-th month name up to case reads as month `i + 1`. */
  lemma MonthOfName(tok: string, i: nat)
    requires i < 12 && Lower(tok) == LowerMonthNames[i]
    ensures MonthOf(tok) == Some(i + 1)
  {
    forall k | 0 <= k < i ensures LowerMonthNames[k] != LowerMonthNames[i] {
      LowerMonthNamesDistinct(k, i);
    }
    MonthFromFinds(tok, 0, i);
  }

  lemma {:induction false} MonthFromFinds(tok: string, from: nat, i: nat)
    requires from <= i < 12 && Lower(tok) == LowerMonthNames[i]
    requires forall k :: from <= k < i ==> LowerMonthNames[k] != LowerMonthNames[i]
    ensures MonthFrom(tok, from) == Some(i + 1)
    decreases i - from
  {
    if from < i {
      MonthFromFinds(tok, from + 1, i);
    }
  }

  /** A month name holds neither of the separators of the pattern. */
  lemma MonthNameNoSeparator(tok: string, i: nat)
    requires i < 12 && Lower(tok) == LowerMonthNames[i]
    ensures '-' !in tok && ',' !in tok
  {
    var l := LowerMonthNames[i];
    assert '-' !in l && ',' !in l;
    forall k | 0 <= k < |tok| ensures tok[k] != '-' && tok[k] != ',' {
      assert l[k] == LowerChar(tok[k]);
    }
  }

  /** The text `name-dd,-yyyy`, with any spelling of the month that equals
      its full English name up to case. */
  function MoveInText(name: string, t: DateTime): string
    requires ValidDateTime(t)
  {
    name + "-" + PadDigits(t.day, 2) + ",-" + PadDigits(t.year, 4)
  }

  /** Every representable midnight written as `Month-dd,-yyyy` is read back,
      whatever the case of the month name. */
  lemma MoveInDateRoundTrip(name: string, t: DateTime)
    requires Representable(t)
    requires t.hour == 0 && t.minute == 0 && t.second == 0
    requires Lower(name) == LowerMonthNames[t.month - 1]
    ensures ParseMoveInDate(MoveInText(name, t)) == Some(t)
  {
    var dd, yyyy := PadDigits(t.day, 2), PadDigits(t.year, 4);
    MonthOfName(name, t.month - 1);
    MonthNameNoSeparator(name, t.month - 1);
    assert ',' !in dd && dd[0] != ' ';
    MoveInPieces(name, dd, yyyy);
    assert MoveInText(name, t) == name + "-" + dd + ",-" + yyyy;
    assert DayOf(dd) == Some(t.day);
    assert YearOf(yyyy) == Some(t.year);
  }

  /** The text splits at the first '-' and the next ',' into its three fields. */
  lemma MoveInPieces(m: string, d: string, y: string)
    requires '-' !in m && ',' !in d
    ensures ParseMoveInDate(m + "-" + d + ",-" + y) == MidnightOf(MonthOf(m), DayOf(d), YearOf(y))
  {
    var s := m + "-" + d + ",-" + y;
    assert s == m + ['-'] + (d + ",-" + y);
    FirstPieceAt(m, '-', d + ",-" + y);
    var rest := s[|m| + 1..];
    assert rest == d + [','] + ("-" + y);
    FirstPieceAt(d, ',', "-" + y);
    var tail := rest[|d| + 1..];
    assert tail == "-" + y;
    assert tail[1..] == y;
  }

  /** `t.strftime('%B-%d,-%Y')` is read back. */
  lemma MoveInDateFormatted(t: DateTime)
    requires Representable(t)
    requires t.hour == 0 && t.minute == 0 && t.second == 0
    ensures ParseMoveInDate(MoveInText(MonthNames[t.month - 1], t)) == Some(t)
  {
    MonthNamesLower(t.month - 1);
    MoveInDateRoundTrip(MonthNames[t.month - 1], t);
  }

  /** "March-14,-2024", "march-14,-2024" and every other casing of the month
      read as 14 March 2024. */
  lemma MoveInDateExample(name: string)
    requires Lower(name) == "march"
    ensures ParseMoveInDate(name + "-14,-2024") == Some(DateTime(2024, 3, 14, 0, 0, 0))
  {
    ExampleText(name);
    MoveInDateRoundTrip(name, DateTime(2024, 3, 14, 0, 0, 0));
  }

  lemma ExampleText(name: string)
    ensures MoveInText(name, DateTime(2024, 3, 14, 0, 0, 0)) == name + "-14,-2024"
  {
    var t := DateTime(2024, 3, 14, 0, 0, 0);
    ExampleDigits();
    var dd, yyyy := PadDigits(14, 2), PadDigits(2024, 4);
    ExamplePieces(dd, yyyy);
    assert MoveInText(name, t) == name + ("-" + dd + ",-" + yyyy);
  }

  lemma ExamplePieces(dd: string, yyyy: string)
    requires dd == "14" && yyyy == "2024"
    ensures "-" + dd + ",-" + yyyy == "-14,-2024"
  {
  }

  lemma ExampleDigits()
    ensures PadDigits(14, 2) == "14" && PadDigits(2024, 4) == "2024"
  {
    assert PadDigits(1, 1) == "1";
    assert PadDigits(2, 1) == "2";
    assert PadDigits(20, 2) == "20";
    assert PadDigits(202, 3) == "202";
  }

  // ---------------------------------------------------------------- %Y-%m-%dT%H:%M:%S

  /** `pd.to_datetime(x, format='%Y-%m-%dT%H:%M:%S', utc=True)` on one text:
      four-digit year and two-digit month, day, hour, minute and second. */
  function ParsePostingDate(s: string): (r: Option<DateTime>)
    ensures r.Some? ==> Representable(r.value)
    ensures r.Some? ==> s == FormatPostingDate(r.value)
  {
    if |s| != 19 || s[4] != '-' || s[7] != '-' || s[10] != 'T' || s[13] != ':' || s[16] != ':' then None
    else if !(AllDigits(s[..4]) && AllDigits(s[5..7]) && AllDigits(s[8..10])
              && AllDigits(s[11..13]) && AllDigits(s[14..16]) && AllDigits(s[17..])) then None
    else
      var t := DateTime(DigitsValue(s[..4]), DigitsValue(s[5..7]), DigitsValue(s[8..10]),
                        DigitsValue(s[11..13]), DigitsValue(s[14..16]), DigitsValue(s[17..]));
      if Representable(t) then
        PostingRebuilt(s);
        Some(t)
      else None
  }

  /** A text of the posting pattern is the padded fields it holds, put back
      together with the pattern's separators. */
  lemma PostingRebuilt(s: string)
    requires |s| == 19 && s[4] == '-' && s[7] == '-' && s[10] == 'T' && s[13] == ':' && s[16] == ':'
    requires AllDigits(s[..4]) && AllDigits(s[5..7]) && AllDigits(s[8..10])
    requires AllDigits(s[11..13]) && AllDigits(s[14..16]) && AllDigits(s[17..])
    ensures DigitsValue(s[..4]) < Pow10(4) && DigitsValue(s[5..7]) < Pow10(2)
    ensures DigitsValue(s[8..10]) < Pow10(2) && DigitsValue(s[11..13]) < Pow10(2)
    ensures DigitsValue(s[14..16]) < Pow10(2) && DigitsValue(s[17..]) < Pow10(2)
    ensures s == PadDigits(DigitsValue(s[..4]), 4) + "-" + PadDigits(DigitsValue(s[5..7]), 2)
               + "-" + PadDigits(DigitsValue(s[8..10]), 2) + "T" + PadDigits(DigitsValue(s[11..13]), 2)
               + ":" + PadDigits(DigitsValue(s[14..16]), 2) + ":" + PadDigits(DigitsValue(s[17..]), 2)
  {
    PadDigitsOfValue(s[..4]);
    PadDigitsOfValue(s[5..7]);
    PadDigitsOfValue(s[8..10]);
    PadDigitsOfValue(s[11..13]);
    PadDigitsOfValue(s[14..16]);
    PadDigitsOfValue(s[17..]);
    PostingJoin(s);
  }

  /** A 19-character text is its fields and separators concatenated. */
  lemma PostingJoin(s: string)
    requires |s| == 19 && s[4] == '-' && s[7] == '-' && s[10] == 'T' && s[13] == ':' && s[16] == ':'
    ensures s == s[..4] + "-" + s[5..7] + "-" + s[8..10] + "T" + s[11..13] + ":" + s[14..16] + ":" + s[17..]
  {
    assert s[..7] == s[..4] + "-" + s[5..7];
    assert s[..10] == s[..7] + "-" + s[8..10];
    assert s[..13] == s[..10] + "T" + s[11..13];
    assert s[..16] == s[..13] + ":" + s[14..16];
    assert s == s[..16] + ":" + s[17..];
  }

  /** The posting pattern accepts exactly the texts strftime writes for a
      representable time, and reads each back as that time. */
  lemma ParsePostingDateSpec(s: string, t: DateTime)
    ensures ParsePostingDate(s) == Some(t) <==> Representable(t) && s == FormatPostingDate(t)
  {
    if Representable(t) && s == FormatPostingDate(t) {
      PostingDateRoundTrip(t);
    }
  }

  /** `t.strftime('%Y-%m-%dT%H:%M:%S')`. */
  function FormatPostingDate(t: DateTime): (s: string)
    requires ValidDateTime(t)
  {
    PadDigits(t.year, 4) + "-" + PadDigits(t.month, 2) + "-" + PadDigits(t.day, 2) + "T"
    + PadDigits(t.hour, 2) + ":" + PadDigits(t.minute, 2) + ":" + PadDigits(t.second, 2)
  }

  /** Every representable time written with this pattern is read back. */
  lemma PostingDateRoundTrip(t: DateTime)
    requires Representable(t)
    ensures ParsePostingDate(FormatPostingDate(t)) == Some(t)
  {
    var y, mo, d := PadDigits(t.year, 4), PadDigits(t.month, 2), PadDigits(t.day, 2);
    var h, mi, se := PadDigits(t.hour, 2), PadDigits(t.minute, 2), PadDigits(t.second, 2);
    PostingSlices(y, mo, d, h, mi, se);
    var s := FormatPostingDate(t);
    assert s[..4] == y && s[5..7] == mo && s[8..10] == d;
    assert s[11..13] == h && s[14..16] == mi && s[17..] == se;
  }

  /** Where each field of `yyyy-mm-ddTHH:MM:SS` sits. */
  lemma PostingSlices(y: string, mo: string, d: string, h: string, mi: string, se: string)
    requires |y| == 4 && |mo| == 2 && |d| == 2 && |h| == 2 && |mi| == 2 && |se| == 2
    ensures var s := y + "-" + mo + "-" + d + "T" + h + ":" + mi + ":" + se;
      && |s| == 19 && s[4] == '-' && s[7] == '-' && s[10] == 'T' && s[13] == ':' && s[16] == ':'
      && s[..4] == y && s[5..7] == mo && s[8..10] == d
      && s[11..13] == h && s[14..16] == mi && s[17..] == se
  {
    var s := y + "-" + mo + "-" + d + "T" + h + ":" + mi + ":" + se;
    assert s[..4] == y;
    assert s[5..7] == mo;
    assert s[8..10] == d;
    assert s[11..13] == h;
    assert s[14..16] == mi;
    assert s[17..] == se;
  }
}
